# Regal core, modelled in Dafny

Regal is a linter for the Rego policy language and a language server for it.
This project models the sequential, deterministic core of both and proves
what that core promises.

The modelled core covers:

- **Text diff to edits.** The Myers line diff, and the formatting edits built from it.
  Positions and text edits follow the "Position" and "TextEdit" basic structures of the Language Server Protocol 3.17.
- **Language-server state.**
  - The server's per-file cache.
  - The generic set and the ref-keyed trie cache.
  - Document symbols, folding ranges, inlay hints and lint diagnostics.
  - The conversions between Rego's one-based locations and the protocol's zero-based positions.
  - Request routing, the package header written into a new file, and the logging of traffic and messages.
- **The fixer.**
  - Fix registration and the fix report.
  - The in-memory and cache-backed file providers.
  - The two line-editing fixes: non-raw regex pattern and directory/package mismatch.
- **Strings and paths.**
  - Conversion between file paths and `file://` URIs, with the percent-encoding of section 2.1 of RFC 3986.
  - gitignore-style ignore patterns.
  - RoAST location strings "row:col:endRow:endCol" and the module-to-value transform.
  - Ref-string splitting, and rule details.
- **Configuration and ordering.**
  - Rule-level precedence when user configuration is merged with the defaults.
  - Capabilities lookup and semver-first version sorting, ordered as the coreos/go-semver library orders versions, after section 11 of Semantic Versioning 2.0.0.
  - The exit codes and validation of `regal lint` and `regal new`.
  - The reporters' footer and documentation links.
- **Completion.** The provider manager, and the rule-head keyword, package-ref, built-in and rule-ref providers.

Each Go file, or small group of files, is one Dafny module.
Code that changes state step by step is modelled in that form:

- the cache, the set, the trie, the file providers, the fixer, the completion manager, the logger and the message log are classes;
- loops are `while`/`for` loops with invariants, proved against specification functions.

Pure code is modelled as functions and lemmas.

The support modules model the parts of Go's standard library that the code relies on:

- `GoStrings`: `strings` and `strconv`;
- `GoPath`: `path/filepath` on Unix;
- `Utf8`: UTF-8;
- `Sorting` and `SortSlice`: `slices.Sort`, `sort.Slice` and `slices.Reverse`.

Go's `uint` and `int` conversions are written out wherever the code depends on wrap-around.

## Model

| member | source | states |
|---|---|---|
| Diff.Operations | internal/lsp/diff.go:40-120 | empty inputs give no operations; otherwise at most len(a)+len(b) operations, each a non-empty Delete of a[I1:I2] or an Insert of a non-empty run of b, in left-to-right order, and applying them to a yields b; identical inputs give no operations |
| Diff.ShortestEditSequence | internal/lsp/diff.go:161-208 | when the search reaches (len(a), len(b)) in round D, the trace holds rounds 0..D, each obtained from the one before by the down/right step and the slide along equal lines; otherwise no trace and offset 0; equal inputs finish in round 0 |
| Diff.SearchRound | internal/lsp/diff.go:169-203 | one round over k = -d, -d+2, ..., d: every diagonal's end point is recorded from the previous round's, staying within V's 2(N+M)+1 entries; it stops exactly on the diagonal of (M, N) when that end point is reached |
| Diff.FollowSnake | internal/lsp/diff.go:183-187 | the diagonal move ends at the end of the run of equal lines |
| Diff.Backtrack | internal/lsp/diff.go:126-158 | the points recorded per round, walked from (len(a), len(b)), form a chain of snakes from (0, 0) to (len(a), len(b)); a search finished in round 0 records only (len(a), len(b)) |
| Diff.BackFromChain | internal/lsp/diff.go:126-158 | on the trace of a finished search the walk back always yields such a chain |
| Diff.ShortestPath | internal/lsp/diff.go:45-46 | the forward search followed by the walk back gives a chain of snakes from (0, 0) to the end; equal inputs always give one |
| Diff.Add | internal/lsp/diff.go:54-66 | completing a pending Delete or Insert at (i2, j2) stores it at solution[i] and keeps "the script so far turns a[:x] into b[:y]"; no pending operation changes nothing |
| Diff.ApplySnake | internal/lsp/diff.go:70-117 | one snake's delete, insert and equal runs bring the walk to the snake's end point while keeping the script consistent with a and b; a snake on the same diagonal adds no operation |
| Diff.OrderedSorted | internal/lsp/diff.go:68-118 | the operations of a script never overlap and their start lines never decrease |
| Diff.SplitLines | internal/lsp/diff.go:211-218 | the pieces concatenate back to the text, none is empty, every piece but the last ends in a newline and no piece holds a newline before its end |
| Format.EditsFromOps | internal/lsp/format.go:46-70 | the edits are the fold of the per-operation edits, never more than the operations |
| Format.EditsOfApply | internal/lsp/format.go:51-66 | a Delete gives an empty-text edit over lines I1..I2, an Insert whose joined content is non-empty gives an edit with that text, and applying the edits to the lines gives the same text as applying the operations |
| Format.LineEditsAtColumnZero | internal/lsp/format.go:53-66 | every edit starts and ends at character 0 |
| Format.ComputeEdits | internal/lsp/format.go:45-73 | equal texts give no edits; when edits are returned, applying them to the lines of before yields after and every edit starts and ends at character 0 |
| Format.ValidateFormattingOptions | internal/lsp/format.go:79-101 | one warning per option the formatter cannot honour (spaces, and each trimming rule turned off), in source order; the default options give exactly three |
| LspCache.Cache.constructor | internal/lsp/cache/cache.go:72-89 | a new cache holds no entry in any of its maps |
| LspCache.Cache.GetAllFiles | internal/lsp/cache/cache.go:91-96 | a copy holding exactly the cached URIs and their contents |
| LspCache.Cache.GetFileContents | internal/lsp/cache/cache.go:98-105 | (content, true) for a cached URI, ("", false) otherwise |
| LspCache.Cache.SetFileContents | internal/lsp/cache/cache.go:107-112 | the content is stored under the URI, after which Get returns (content, true); other URIs read as before |
| LspCache.Cache.GetIgnoredFileContents | internal/lsp/cache/cache.go:114-121 | (content, true) for a stored ignored file, ("", false) otherwise |
| LspCache.Cache.SetIgnoredFileContents | internal/lsp/cache/cache.go:123-128 | the ignored content is stored under the URI |
| LspCache.Cache.ClearIgnoredFileContents | internal/lsp/cache/cache.go:137-142 | the URI is removed from the ignored contents only |
| LspCache.Cache.GetModule | internal/lsp/cache/cache.go:151-158 | the stored module, or none |
| LspCache.Cache.SetModule | internal/lsp/cache/cache.go:160-165 | the module is stored under the URI |
| LspCache.Cache.SetFileAggregates | internal/lsp/cache/cache.go:169-186 | the URI's aggregates become exactly the given ones whose source file is the URI, each as often as the given lists hold it (the order is open); other files keep theirs |
| LspCache.Cache.SetAggregates | internal/lsp/cache/cache.go:188-200 | all aggregate state is replaced by the given aggregates grouped by source file, each group holding each of its aggregates as often as the given lists do (the order is open) |
| LspCache.Cache.GetFileAggregates | internal/lsp/cache/cache.go:204-228 | every aggregate of the asked files (of all files when none are asked) appears under its index key as often as those files hold it, and nothing else appears (the order is open) |
| LspCache.GroupBy | internal/lsp/cache/cache.go:195-199 | appending each aggregate to the group of its key: each group becomes the old group followed by the aggregates with that key, in their order and with repeats kept; old keys stay |
| LspCache.GroupedExact | internal/lsp/cache/cache.go:195-199 | appending the aggregates one by one leaves each group as the old group followed by the aggregates of its key, in order |
| LspCache.KeyedCount | internal/lsp/cache/cache.go:195-199 | the aggregates appended under a key are every copy of each aggregate with that key and no other |
| LspCache.BagPick | internal/lsp/cache/cache.go:193-199 | the aggregates of a map's lists, counted with repeats, do not depend on the order its keys are visited in |
| LspCache.PreservedSpec | internal/lsp/cache/cache.go:253-262 | the kept diagnostics are exactly the old ones whose code is not among the rules, never more than before |
| LspCache.PreservedIdempotent | internal/lsp/cache/cache.go:253-262 | filtering twice by the same rules changes nothing |
| LspCache.Cache.GetFileDiagnostics | internal/lsp/cache/cache.go:230-237 | the stored diagnostics and true, or none and false |
| LspCache.Cache.SetFileDiagnostics | internal/lsp/cache/cache.go:239-246 | the diagnostics are stored under the URI |
| LspCache.Cache.SetFileDiagnosticsForRules | internal/lsp/cache/cache.go:248-266 | the URI's diagnostics become the old ones whose code is not in the rules, in order, followed by the new ones |
| LspCache.Cache.ClearFileDiagnostics | internal/lsp/cache/cache.go:268-273 | no file has diagnostics afterwards |
| LspCache.Cache.GetParseErrors | internal/lsp/cache/cache.go:275-282 | the stored parse errors and true, or none and false |
| LspCache.Cache.SetParseErrors | internal/lsp/cache/cache.go:284-289 | the parse errors are stored under the URI |
| LspCache.Cache.GetBuiltinPositions | internal/lsp/cache/cache.go:291-298 | the stored builtin positions, or none |
| LspCache.Cache.SetBuiltinPositions | internal/lsp/cache/cache.go:300-305 | the positions are stored under the URI |
| LspCache.Cache.GetKeywordLocations | internal/lsp/cache/cache.go:321-328 | the stored keyword locations, or none |
| LspCache.Cache.SetKeywordLocations | internal/lsp/cache/cache.go:314-319 | the keyword locations are stored under the URI |
| LspCache.Cache.GetFileRefs | internal/lsp/cache/cache.go:337-342 | the stored refs, or the empty map |
| LspCache.Cache.SetFileRefs | internal/lsp/cache/cache.go:330-335 | the refs are stored under the URI |
| LspCache.Cache.Delete | internal/lsp/cache/cache.go:353-385 | the URI is removed from every map, ignored contents included, except the keyword locations, which are kept |
| LspCache.UpdateCacheForURIFromDisk | internal/lsp/cache/cache.go:387-404 | a read error changes nothing; otherwise the disk content is cached and returned, reported as changed exactly when it differs from what was cached, and nothing else changes |
| RoastSet.Set.constructor | pkg/roast/util/set.go:14-20 | the new set holds exactly the supplied items |
| RoastSet.Set.Add | pkg/roast/util/set.go:23-27 | the items are added; adding items already present leaves the size unchanged |
| RoastSet.Set.Remove | pkg/roast/util/set.go:30-34 | the items are removed; removing absent items changes nothing |
| RoastSet.Set.Contains | pkg/roast/util/set.go:37-45 | true exactly when every given item is present, hence true for no items |
| RoastSet.Set.Size | pkg/roast/util/set.go:48-50 | the number of distinct elements; zero exactly for the empty set |
| RoastSet.Set.Items | pkg/roast/util/set.go:53-60 | each element listed exactly once, so the length is the size |
| RoastSet.Set.Diff | pkg/roast/util/set.go:63-73 | a new set holding exactly the elements not in b |
| TrieCache.Find | internal/cache/cache.go:43-48 | an empty path finds the value itself, a path into a scalar finds nothing |
| TrieCache.BaseCache.constructor | internal/cache/cache.go:19-24 | an empty root |
| TrieCache.BaseCache.Get | internal/cache/cache.go:26-53 | the answer of the walk down the children to the first stored value, then Find of the rest; nothing for an empty ref |
| TrieCache.BaseCache.Put | internal/cache/cache.go:55-71 | the trie after creating the missing nodes along the ref and setting the value there |
| TrieCache.PutThenGet | internal/cache/cache.go:26-71 | Get of a ref just Put returns the stored value, unless a shorter ref above already holds a value |
| TrieCache.PutClearsBelow | internal/cache/cache.go:79-82 | after Put, longer refs below are answered from the new value only: the children were dropped |
| TrieCache.PutLeavesOtherBranches | internal/cache/cache.go:59-67 | refs that branch off elsewhere read as before |
| TrieCache.ScalarShortcut | internal/cache/cache.go:37-41 | the direct return of a scalar at a one-segment ref agrees with Find |
| TrieCache.EmptyLookup | internal/cache/cache.go:31-35 | a missing segment gives nothing |
| TrieCache.ShadowedPut | internal/cache/cache.go:36-48 | a value stored at a shorter ref shadows a later Put below it |
| TrieCache.PutEmptyRef | internal/cache/cache.go:55-71 | Put of an empty ref sets the root, which Get never reads |
| FixerReport.Report.constructor | pkg/fixer/report.go:12-16 | a new report has no fixes |
| FixerReport.Report.SetFileFixedViolation | pkg/fixer/report.go:18-28 | the pair is recorded; the total grows by one exactly when the pair is new |
| FixerReport.CountedInsert | pkg/fixer/report.go:18-28 | the total stays equal to the number of distinct (file, violation) pairs |
| FixerReport.Report.FixedViolationsForFile | pkg/fixer/report.go:30-40 | the file's fixed violations, sorted and each once; empty for an unknown file |
| FixerReport.Report.FixedFiles | pkg/fixer/report.go:42-52 | sorted, exactly the files with a recorded fix |
| FixerReport.Report.TotalFixes | pkg/fixer/report.go:54-57 | the number of distinct (file, violation) pairs |
| InMemoryProvider.InMemoryFileProvider.constructor | pkg/fixer/fileprovider/inmem.go:20-26 | the given files, with nothing modified or deleted |
| InMemoryProvider.InMemoryFileProvider.ListFiles | pkg/fixer/fileprovider/inmem.go:47-54 | exactly the current file names, each once |
| InMemoryProvider.InMemoryFileProvider.GetFile | pkg/fixer/fileprovider/inmem.go:56-63 | the content of a known file; "file <name> not found" otherwise |
| InMemoryProvider.InMemoryFileProvider.PutFile | pkg/fixer/fileprovider/inmem.go:65-71 | the content is stored and the file marked modified; GetFile then returns it and other files read as before |
| InMemoryProvider.InMemoryFileProvider.DeleteFile | pkg/fixer/fileprovider/inmem.go:73-80 | the file leaves the files and the modified set and is recorded as deleted |
| InMemoryProvider.InMemoryFileProvider.ModifiedFiles | pkg/fixer/fileprovider/inmem.go:82-84 | exactly the modified files, each of which can be read |
| InMemoryProvider.InMemoryFileProvider.DeletedFiles | pkg/fixer/fileprovider/inmem.go:86-88 | exactly the deleted files |
| InMemoryProvider.DeleteThenPut | pkg/fixer/fileprovider/inmem.go:65-80 | a file deleted and written again reads back and is both modified and deleted |
| CacheProvider.CacheFileProvider.constructor | pkg/fixer/fileprovider/cache.go:24-31 | the given cache and client, with empty modified and deleted sets |
| CacheProvider.CacheFileProvider.List | pkg/fixer/fileprovider/cache.go:33-42 | one path per cached URI, the path of that URI: the paths are ToPath of the cached URIs taken in some order, each URI exactly once, so two URIs with the same path give that path twice |
| CacheProvider.RenamedTargetListed | pkg/fixer/fileprovider/cache.go:33-42 | an absolute path stored under its URI is listed again as that path |
| CacheProvider.CacheFileProvider.Get | pkg/fixer/fileprovider/cache.go:44-51 | the content under the URI of the path; an error otherwise |
| CacheProvider.CacheFileProvider.Put | pkg/fixer/fileprovider/cache.go:53-57 | the content is stored under the raw key, not under the URI Get reads, so Get of a plain path is unchanged |
| CacheProvider.CacheFileProvider.Delete | pkg/fixer/fileprovider/cache.go:59-63 | the URI of the path is removed from every map of the cache and nothing else changes, so Get then fails |
| CacheProvider.CacheFileProvider.Rename | pkg/fixer/fileprovider/cache.go:65-88 | a missing source is an error and an existing target a RenameConflictError, both leaving the cache unchanged; otherwise the target holds the source content, the source's URI is gone from every map of the cache, the target is modified and the source deleted and not modified |
| Fixer.Fixer.constructor | pkg/fixer/fixer.go:20-26 | no fixes, no mandatory fixes, no roots |
| Fixer.Fixer.RegisterFixes | pkg/fixer/fixer.go:37-46 | each fix is registered under its name in order, the last one of a name winning, except names already mandatory, which are ignored; regular and mandatory names stay disjoint |
| Fixer.Fixer.RegisterMandatoryFixes | pkg/fixer/fixer.go:48-58 | each fix is registered as mandatory, and its name is removed from the regular fixes |
| Fixer.Fixer.RegisterMandatoryFix | pkg/fixer/fixer.go:49-56 | one fix: registered as mandatory and dropped from the regular fixes |
| Fixer.RegisterStep | pkg/fixer/fixer.go:38-44 | registering one more fix extends the registration by exactly that fix, unless its name is excluded |
| Fixer.Fixer.RegisterRoots | pkg/fixer/fixer.go:60-62 | the roots are appended in order |
| Fixer.Fixer.GetFixForName | pkg/fixer/fixer.go:64-76 | the registered fix, or none for an unknown name |
| Fixer.Fixer.GetMandatoryFixForName | pkg/fixer/fixer.go:78-90 | the registered mandatory fix, or none for an unknown name |
| Fixer.Differing | pkg/fixer/fixer.go:156-166 | the results of a fix that differ from the file's contents, in order, never more than the results; none exactly when every result equals the contents |
| Fixer.ApplyResults | pkg/fixer/fixer.go:156-166 | the differing results are written in order, the file ending with the last one; with none the files are unchanged |
| Fixer.RecordFixes | pkg/fixer/fixer.go:162 | each written result's title is recorded for the file in the report |
| Fixer.Fixer.FixFile | pkg/fixer/fixer.go:133-167 | every mandatory fix run on one file: the file set is kept, and a file on which nothing was written is unchanged and left alone by every mandatory fix |
| Fixer.Fixer.Pass | pkg/fixer/fixer.go:125-168 | one pass over all files: when nothing was written, no mandatory fix changes any file |
| Fixer.Fixer.ApplyMandatoryFixes | pkg/fixer/fixer.go:119-176 | with no mandatory fixes nothing happens; on success no mandatory fix changes any file (the fixpoint) |
| Fixer.Fixer.Fix | pkg/fixer/fixer.go:92-116 | with nothing registered an empty report and unchanged files; on success a fresh report and settled files; the linter fixes are pending exactly when regular fixes are registered |
| NonRawRegexPattern.Fix | pkg/fixer/fixes/nonrawregexpattern.go:14-67 | nil options is an error; no locations gives no results; otherwise at most one result, present exactly when some quote was replaced, holding the edited lines joined by newlines under the fix's title and the base directory |
| NonRawRegexPattern.FixAt | pkg/fixer/fixes/nonrawregexpattern.go:26-53 | one location edits only its own line; a row out of range or a skipped column range changes nothing; the line count is kept |
| NonRawRegexPattern.FixAll | pkg/fixer/fixes/nonrawregexpattern.go:26-54 | lines named by no location are unchanged and the line count is kept |
| NonRawRegexPattern.FixLine | pkg/fixer/fixes/nonrawregexpattern.go:39-53 | a '"' at the start or end column becomes '`', the text before the start and after the end is kept, and the text between is the original with every `\\` collapsed to `\`; the flag is set exactly when a quote was replaced |
| NonRawRegexPattern.FixLocation | pkg/fixer/fixes/nonrawregexpattern.go:31-53 | the rune-by-rune edit of one line agrees with FixAt |
| NonRawRegexPattern.LineCountPreserved | pkg/fixer/fixes/nonrawregexpattern.go:23-60 | splitting the joined result again gives the edited lines, as many as the original had |
| NonRawRegexPattern.AsWrittenAdmitsEndOfLine | pkg/fixer/fixes/nonrawregexpattern.go:35-44 | the guard as written lets an end column one past the line through, and line[end] is then out of range |
| NonRawRegexPattern.SkipsGuardsIndex | pkg/fixer/fixes/nonrawregexpattern.go:35-44 | the corrected guard admits only 0 <= start < end < len(line), and differs from the written one exactly at end == len(line) |
| DirectoryPackageMismatch.ShouldExcludeTestSuffix | pkg/fixer/fixes/directorypackagemismatch.go:79-95 | false exactly when the rule's configuration sets exclude-test-suffix to the boolean false; true without a configuration or the key |
| DirectoryPackageMismatch.FirstIrregular | pkg/fixer/fixes/directorypackagemismatch.go:62-67 | the first part that does not match ^[a-zA-Z_][a-zA-Z0-9_-]*$, every part before it matching |
| DirectoryPackageMismatch.PackageDirectory | pkg/fixer/fixes/directorypackagemismatch.go:52-77 | a parse error is passed on; the leading "data" is dropped; an error naming a part exactly when some later part does not match the name pattern; otherwise the parts joined as a path |
| DirectoryPackageMismatch.GetPackagePathDirectory | pkg/fixer/fixes/directorypackagemismatch.go:52-77 | the loop over the parts agrees with PackageDirectory |
| DirectoryPackageMismatch.FillParts | pkg/fixer/fixes/directorypackagemismatch.go:60-73 | the parts array is filled with the unquoted parts, "_test" trimmed from the last one when asked, and stops at the first irregular part |
| DirectoryPackageMismatch.PlainPackageDirectory | pkg/fixer/fixes/directorypackagemismatch.go:58-73 | regular parts without a _test suffix map to the dot-free path of the package |
| DirectoryPackageMismatch.TestPackageSharesDirectory | pkg/fixer/fixes/directorypackagemismatch.go:69-71 | with exclude-test-suffix on, a package and its _test package get the same directory |
| DirectoryPackageMismatch.Fix | pkg/fixer/fixes/directorypackagemismatch.go:28-50 | the package-directory error is passed on; otherwise the target is clean(base dir or the file's directory)/package path/file name, and there is no result when the file is already there, else one rename from the file to the target with the contents unchanged |
| DirectoryPackageMismatch.FixSettles | pkg/fixer/fixes/directorypackagemismatch.go:28-50 | for plain names, fixing the renamed file again gives no result |
| Commands.Parse | internal/lsp/commands/parse.go:26-88 | no arguments fail with "no args supplied"; the target is the formatted argument at the target index, or ""; no location when the row index equals the target index or an index is out of range; otherwise the row and column are read (row first), and the first failure is the error |
| Commands.Coordinate | internal/lsp/commands/parse.go:50-76 | an int is taken as is, a string through strconv.Atoi (its error wrapped as "failed to parse row/col"), any other type is "unexpected type for row/col" |
| Commands.CoordinateOfDecimal | internal/lsp/commands/parse.go:53-59 | a decimal string of n reads back as n |
| Commands.ParseWellTyped | internal/lsp/commands/parse.go:39-87 | with well-typed arguments Parse succeeds, with a location exactly when the indices allow one |
| Commands.TargetAndLocation | internal/lsp/commands/parse_test.go:29-36 | ["target", "1", 2] gives target "target" at row 1, column 2 |
| Commands.TargetOnly | internal/lsp/commands/parse.go:39-43 | equal row and target indices give the target alone |
| Uri.FromPath | internal/lsp/uri/uri.go:20-52 | the loop over the segments computes UriOf |
| Uri.UriOf | internal/lsp/uri/uri.go:20-52 | every URI starts with "file:///" |
| Uri.FromPathStripsScheme | internal/lsp/uri/uri.go:21-22 | a path given with "file://" converts to the same URI as without it |
| Uri.EscapeSegmentChars | internal/lsp/uri/uri.go:33-37 | a segment query-escaped with "+" rewritten to "%20" is the percent-encoding of its bytes, a space as "%20" |
| Uri.DriveUriParts | internal/lsp/uri/uri.go:39-42 | for VS Code a drive "c:" is written "c%3A" |
| Uri.FromPathIdempotentOnPlainPaths | internal/lsp/uri/uri_test.go:21-24 | converting a URI of a plain path again gives the same URI |
| Uri.ToPath | internal/lsp/uri/uri.go:57-84 | for VS Code, a path without a drive regains its leading "/" |
| Uri.UnescapePath | internal/lsp/uri/uri.go:59-65 | percent-decoding undoes the escaping of every path |
| Uri.PathRoundTrip | internal/lsp/uri/uri_test.go:55-153 | ToPath(FromPath(p)) == p for absolute paths without a drive, spaces and colons included, for both clients |
| Uri.DrivePathRoundTrip | internal/lsp/uri/uri.go:39-77 | for VS Code a drive path comes back with its drive letter |
| RoastLocation.CodecEnd | internal/roast/encoding/location.go:32-49 | nil text ends where it starts; otherwise the end row is the row plus the number of newlines, and the end column is col + len(text) on one line or len(last line) + 1 on several |
| RoastLocation.LocationStringRoundTrip | internal/roast/encoding/location.go:53-59 | the "row:col:endRow:endCol" string reads back as its four numbers |
| RoastLocation.MultiLineExample | internal/roast/encoding/location_test.go:21-29 | the three-line rule text at 5:2 encodes as "5:2:7:2" |
| RoastLocation.OneLineExample | internal/roast/encoding/location_test.go:30-37 | "package example" at 1:1 encodes as "1:1:1:16" |
| RoastLocation.ItemEndAgrees | internal/roast/transforms/module/module.go:99-125 | locationItem's end (len(text) - last index of a newline) equals the codec's for every location |
| RoastModule.LocationItem | internal/roast/transforms/module/module.go:99-135 | the "location" key with the "row:col:endRow:endCol" string of the codec's end |
| RoastModule.LocationItemReadsBack | internal/roast/transforms/module/module.go:126-134 | the location string reads back as the row, column and end |
| RoastModule.Item | internal/roast/transforms/module/module.go:487-493 | a nil value becomes null |
| RoastModule.Insert | internal/roast/transforms/module/module.go:495-501 | a nil value is skipped; otherwise the key is set and the other keys kept |
| RoastModule.ObjectWithLocation | internal/roast/transforms/module/module.go:479-485 | empty without a location, else just the location item |
| RoastModule.TermToObject | internal/roast/transforms/module/module.go:137-160 | a nil term is the empty object, a term without a value gives nil; otherwise type and value, plus the location exactly when asked and present |
| RoastModule.PathArray | internal/roast/transforms/module/module.go:86-97 | an empty path is the empty array; one object per term, the first without a location, the others with theirs when present |
| RoastModule.AnnotationObject | internal/roast/transforms/module/module.go:230-250 | scope and title only when non-empty, entrypoint only when set |
| RoastModule.PackageAnnotations | internal/roast/transforms/module/module.go:72-77 | exactly the annotations whose scope is neither "document" nor "rule" |
| RoastModule.PackageValue | internal/roast/transforms/module/module.go:62-84 | path, annotations and location keys present exactly when there is something to put there |
| RoastModule.ImportValue | internal/roast/transforms/module/module.go:30-36 | the path, and an alias exactly when one is set |
| RoastModule.ModuleValue | internal/roast/transforms/module/module.go:20-60 | package, imports, rules and comments keys present exactly when non-empty, each holding one value per element in order |
| RoastModule.ToValue | internal/roast/transforms/module/module.go:20-60 | the loops over imports and comments build ModuleValue |
| RoastModule.ImportsArray | internal/roast/transforms/module/module.go:27-42 | one import object per import, in order |
| RoastModule.CommentsArray | internal/roast/transforms/module/module.go:48-57 | one comment object (base64 text and location) per comment, in order |
| RoastModule.Base64 | internal/roast/transforms/module/module.go:52 | standard base64 is four characters per started group of three bytes |
| Rast.RefHeadTerm | pkg/roast/rast/rast.go:134-143 | the head is a variable of that name ("data" and "input" being the root-document variables) |
| Rast.RefOf | pkg/roast/rast/rast.go:98-121 | a one-term ref for a path without '.', else a variable head followed by string terms |
| Rast.RefOfPieces | pkg/roast/rast/rast.go:98-121 | the terms name the pieces between the dots in order, a trailing empty piece dropped |
| Rast.TailTermsSplit | pkg/roast/rast/rast.go:106-118 | the loop's terms are the split pieces of the rest, less a final empty one |
| Rast.RefOfJoins | pkg/roast/rast/rast.go:98-121 | joining the term names with dots gives back a path that does not end in '.' |
| Rast.RefOfPlain | pkg/roast/rast/rast.go:99-102 | a path with no '.' yields the one-term ref of that variable |
| Rast.RefStringToRef | pkg/roast/rast/rast.go:98-121 | the loop computes RefOf |
| Rast.RefStringToBody | pkg/roast/rast/rast.go:71-93 | a body of one expression holding the same ref as RefStringToRef |
| Rast.LinesArray | pkg/roast/rast/rast.go:123-132 | after "\r\n" becomes "\n", one line per newline plus one, none holding a newline, joining back to the text |
| Rast.IsBodyGenerated | pkg/roast/rast/rast.go:26-55 | default rules and empty bodies are generated; a rule without a head is not |
| Rast.TagOf | pkg/roast/rast/rast.go:160-174 | no key for an empty or "-" tag; the key is the part before the first comma, with omitempty among the later parts |
| Rast.StructToValue | pkg/roast/rast/rast.go:148-183 | the loop builds the object of the emitted fields |
| Rast.ObjectKeys | pkg/roast/rast/rast.go:148-183 | the keys are exactly those of fields with a tag and not omitted |
| Rast.ObjectLastWins | pkg/roast/rast/rast.go:148-183 | a key set by several fields holds the last one's value |
| Rast.OmitEmptyOmitted | pkg/roast/rast/rast.go:168-173 | an omitempty field holding its zero value is left out |
| Rast.UnquotedPath | pkg/roast/rast/rast.go:16-23 | one string per term after the first, each the term's rendering (strconv.Quote for a string) with the outer quotes trimmed |
| Rast.UnquotedPlainString | pkg/roast/rast/rast.go:16-23 | a string segment without characters that strconv.Quote escapes unquotes to its own text |
| Rast.UnquotedEscapedQuote | pkg/roast/rast/rast.go:16-23 | a quote inside a segment keeps its backslash: the segment a" unquotes to a\ |
| DocumentSymbols.LocationToRangeShape | internal/lsp/documentsymbol.go:129-149 | starts at (Row-1, Col-1) as uint; ends on the line of the text's last newline, at the byte length of the last line |
| DocumentSymbols.LocationToRangeAgrees | internal/lsp/documentsymbol.go:129-149 | for rules starting at column 1 or spanning several lines the range agrees with the location codec's end, less one |
| DocumentSymbols.PackageRange | internal/lsp/documentsymbol.go:25-28 | the package symbol spans (0, 0) to the end of the last line |
| DocumentSymbols.RefToString | internal/lsp/documentsymbol.go:151-173 | the loop writes every part's segment in order |
| DocumentSymbols.WriteSegment | internal/lsp/documentsymbol.go:154-170 | the first part bare, later ground parts as ".x", later non-ground parts as "[x]", quotes trimmed |
| DocumentSymbols.RefStringOfGround | internal/lsp/documentsymbol.go:151-173 | a ref whose later parts are ground reads as its unquoted parts joined by dots |
| DocumentSymbols.RefStringMixed | internal/lsp/documentsymbol.go:151-173 | a variable, a string and a variable read as a.b[c] |
| DocumentSymbols.GroupRules | internal/lsp/documentsymbol.go:37-43 | one group per rule name, holding exactly the rules of that name in source order, each headed by a rule of its name |
| DocumentSymbols.GroupSymbolNamed | internal/lsp/documentsymbol.go:45-116 | a group's symbol carries the name and detail of its first rule, and has children exactly when the group has more than one rule |
| DocumentSymbols.GroupSymbolKind | internal/lsp/documentsymbol.go:49-80 | a lone rule is Constant, Function or Variable; a group is Function exactly when its first rule has args, and never Constant |
| DocumentSymbols.GroupSymbolRange | internal/lsp/documentsymbol.go:57-75 | a group spans from its first rule's start to its last rule's end |
| DocumentSymbols.GroupSymbolChildren | internal/lsp/documentsymbol.go:94-111 | child k is named "#k+1", has the group's kind and its own rule's range, and no children |
| DocumentSymbols.ChildNamesDistinct | internal/lsp/documentsymbol.go:98 | different children get different names |
| DocumentSymbols.Detail | internal/lsp/documentsymbol.go:63-65 | detail is absent exactly when getRuleDetail gives "" |
| DocumentSymbols.BuildGroupSymbol | internal/lsp/documentsymbol.go:45-116 | the loop builds the group's symbol |
| DocumentSymbols.ChildSymbols | internal/lsp/documentsymbol.go:94-111 | one child per rule of the group, in order |
| DocumentSymbols.BuildGroupSymbols | internal/lsp/documentsymbol.go:45-117 | one symbol per group, each group exactly once, in map iteration order |
| DocumentSymbols.DocumentSymbolsOf | internal/lsp/documentsymbol.go:14-127 | a single package symbol named by the package path over the whole file, without detail, with children exactly when there are rules, which are the group symbols |
| DocumentSymbols.ToWorkspaceSymbols | internal/lsp/documentsymbol.go:278-290 | the symbols are appended to the list, each non-"#" symbol followed by those of its children |
| DocumentSymbols.WorkspaceSymbolsUnnumbered | internal/lsp/documentsymbol.go:278-290 | no workspace symbol's name starts with '#' |
| DocumentSymbols.NumberedDropped | internal/lsp/documentsymbol.go:281-283 | '#'-named symbols are dropped with their children |
| DocumentSymbols.WorkspaceOfGroups | internal/lsp/documentsymbol.go:278-290 | for group symbols whose children are all numbered, the workspace list is one symbol per group |
| RuleDetail.GetRuleDetail | internal/ast/rule.go:15-64 | a function gives "function" + its args; a key without value gives "multi-value rule"; no value gives ""; otherwise "single-value " + "map " when keyed + "rule", followed by the suffix of the value's kind: " (number)", " (string)", " (boolean)" or " (test)" for a boolean "test_" rule, " (array)", " (object)", " (set)", and for a call the simplified return type of the built-in when it is known; other kinds add nothing |
| RuleDetail.DetailClassifies | internal/ast/rule.go:15-34 | the detail tells the four kinds apart: it starts with "function(" exactly for functions, with "single-value " exactly for rules with a value, and is "multi-value rule" or "" exactly in the other two cases |
| RuleDetail.TestRuleDetail | internal/ast/rule.go:37-40 | a boolean rule named test_allow is "single-value rule (test)" |
| RuleDetail.FunctionDetail | internal/ast/rule.go:16-18 | a function of x and y is "function(x, y)" |
| RuleDetail.SimplifyType | internal/ast/rule.go:87-105 | the result holds no '[' or '<', has no surrounding space and is never longer than the input |
| RuleDetail.SimplifyTypeBase | internal/ast/rule.go:87-105 | "tag: base" followed by a "[...]" or "<...>" part simplifies to the base type |
| RuleDetail.ConstantDetail | internal/ast/rule.go:68-84 | a constant rule always has a single-value detail, with its scalar's type unless it is null |
| RuleDetail.NoValueNotConstant | internal/ast/rule.go:71-73 | a rule without a head value is never constant |
| Lint.Severity | internal/lsp/lint.go:316-321 | a violation at level "warning" is shown with severity 3 (information), any other level with severity 2 (warning) |
| Lint.RangeForViolation | internal/lsp/lint.go:346-367 | the 1-based row and column become a 0-based start clamped at 0; the end comes from the location's end the same way, or lies on the start line as many bytes on as the text is long |
| Lint.RangeOrdered | internal/lsp/lint.go:346-367 | a location whose end is not before its start gives a range whose start is not after its end |
| Lint.RangeClamped | internal/lsp/lint.go:351-352 | a row or column of 0 or less clamps to the start of the text |
| Lint.ViolationDiagnostic | internal/lsp/lint.go:314-340 | the diagnostic carries the violation's severity, range, description, title, "regal/" source and documentation page |
| Lint.FiledUnderMembers | internal/lsp/lint.go:314-342 | a file's diagnostics are exactly those of the violations filed under it, never more than the violations |
| Lint.FiledUnderNonEmpty | internal/lsp/lint.go:323-342 | a file has diagnostics exactly when some violation is filed under it |
| Lint.FiledInOrder | internal/lsp/lint.go:314-342 | violations filed under one file keep their order |
| Lint.FileStep | internal/lsp/lint.go:323-342 | appending one violation's diagnostic to its file keeps the map equal to the filed diagnostics |
| Lint.ConvertReportToDiagnostics | internal/lsp/lint.go:310-344 | the map's files are those of the violations (the workspace root when a violation names none), each with its violations' diagnostics in order |
| Lint.ReplaceChar | internal/lsp/lint.go:141 | replacing a character keeps the length and changes exactly that character |
| Lint.ParseErrorDiagnostic | internal/lsp/lint.go:121-159 | a parse error covers its whole line from character 0 as an error, its code with '-' for '_', its hint as source and page, or the generic parse-error ones |
| Lint.ParseErrorDiagnostics | internal/lsp/lint.go:121-160 | one diagnostic per parse error, in order |
| Lint.ParseErrorsStandApart | internal/lsp/lint.go:140-321 | a parse error's severity differs from every violation's, and a non-empty line gives a non-empty range |
| Lint.RecordParseErrors | internal/lsp/lint.go:44-171 | with no file content or an unknown error type nothing is recorded and an error results; otherwise the file's parse errors become its diagnostics, and an empty list is an error |
| FoldingRange.EndLineWrapsOnFirstRow | internal/lsp/foldingrange.go:61-93 | as written, a closer on the first row ends its range on line 2^64 - 1 |
| FoldingRange.EndLineWithinText | internal/lsp/foldingrange.go:61-93 | the corrected end line never lies past the closer's line and equals the source's whenever the closer is below the first row |
| FoldingRange.StopIndex | internal/lsp/foldingrange.go:40-45 | scanning stops at the first end of input or scan error, and at no earlier token |
| FoldingRange.TokenFoldingRanges | internal/lsp/foldingrange.go:26-100 | the loop yields the ranges of the token specification over the tokens before the stop |
| FoldingRange.ScanToken | internal/lsp/foldingrange.go:47-96 | one token pushes an opener on its kind's stack or pops its kind's stack into a region range, as the step specification says |
| FoldingRange.RangesCountPairs | internal/lsp/foldingrange.go:47-96 | ranges plus still-open openers equal the openers seen, and ranges never outnumber the closers |
| FoldingRange.RunToPrefix | internal/lsp/foldingrange.go:40-97 | the state after n tokens depends on those tokens only |
| FoldingRange.StopsAtFirstError | internal/lsp/foldingrange.go:43-45 | tokens after the end of input or a scan error change nothing |
| FoldingRange.StopIndexOfExtension | internal/lsp/foldingrange.go:43-45 | appending tokens after a stop does not move the stop |
| FoldingRange.UnmatchedCloserIgnored | internal/lsp/foldingrange.go:50-82 | a closer whose own stack is empty changes nothing |
| FoldingRange.KindsKeptApart | internal/lsp/foldingrange.go:34-96 | in "{ [ } ]" the brace pairs with the brace and the bracket with the bracket |
| FoldingRange.CloserFirstIgnored | internal/lsp/foldingrange.go:50 | "} {" gives no range |
| FoldingRange.RunStart | internal/lsp/foldingrange.go:117-122 | the first comment of a run of consecutive-row comments: every comment after it up to i follows its predecessor, it does not |
| FoldingRange.CommentFoldingRanges | internal/lsp/foldingrange.go:110-133 | the loop yields one comment range per run of two or more consecutive-row comments, from the run's first line to its last |
| FoldingRange.ScatteredCommentsNoRanges | internal/lsp/foldingrange.go:117-132 | comments never on consecutive rows give no range |
| FoldingRange.OneRunOneRange | internal/lsp/foldingrange.go:117-132 | one run of consecutive-row comments folds into a single range over all its lines |
| FoldingRange.NoBlockBeforeEnd | internal/lsp/foldingrange.go:123-132 | within one run no range is closed before its last comment |
| FoldingRange.ImportRanges | internal/lsp/foldingrange.go:137-150 | more than two imports give exactly one range from the first import's line to the last one's; two or fewer give none |
| FoldingRange.FindFoldingRanges | internal/lsp/foldingrange.go:103-157 | comment ranges, then the imports range, then the token ranges |
| PathFilter.Anchor | pkg/config/filter.go:92-101 | a pattern with no slash before its last character is anchored anywhere with "**/"; otherwise a leading slash is dropped |
| PathFilter.Expansions | pkg/config/filter.go:114-123 | a trailing slash matches everything below; a pattern ending in neither "/" nor "**" also matches itself as a directory; one ending in "**" is kept |
| PathFilter.CandidatePatterns | pkg/config/filter.go:92-123 | the loop builds the candidate patterns of the specification, in order |
| PathFilter.ExcludeFile | pkg/config/filter.go:91-138 | a file is excluded exactly when some candidate pattern matches it |
| PathFilter.BareNameCandidates | pkg/config/filter.go:96-123 | a bare name yields "**/name", "**/name/**", "name" and "name/**" |
| PathFilter.BareNameAnchored | pkg/config/filter.go:96-98 | a bare name is anchored anywhere |
| PathFilter.DirectoryCandidates | pkg/config/filter.go:96-123 | "d/" yields "**/d/**" and "d/**" |
| PathFilter.MatchLiteral | pkg/config/filter.go:127-133 | a literal prefix matches only itself |
| PathFilter.MatchSkip | pkg/config/filter.go:127-133 | "**" in front of a pattern skips any prefix of the name |
| PathFilter.MatchAll | pkg/config/filter.go:127-133 | "**" matches every name |
| PathFilter.DirectoryPatternExcludesAtRoot | pkg/config/filter.go:91-138 | "d/" excludes every file under d at the root |
| PathFilter.DirectoryPatternExcludesBelow | pkg/config/filter.go:91-138 | "d/" excludes every file under a directory d at any depth |
| PathFilter.BareNameExcludes | pkg/config/filter.go:91-138 | a bare name excludes the file of that name at the root and at any depth |
| PathFilter.IgnoredBySome | pkg/config/filter.go:68-81 | a file is ignored by the first n patterns exactly when one of them is non-empty and excludes it |
| PathFilter.EmptyPatternsIgnoreNothing | pkg/config/filter.go:69-71 | empty patterns are skipped, so they ignore nothing |
| PathFilter.IgnoredByGrows | pkg/config/filter.go:68-81 | more patterns never un-ignore a file |
| PathFilter.KeptMembers | pkg/config/filter.go:63-87 | the kept paths are exactly the given ones that no pattern ignores, never more of them |
| PathFilter.NoPatternKeepsAll | pkg/config/filter.go:63-87 | with only empty patterns every path is kept, in order |
| PathFilter.FilterPaths | pkg/config/filter.go:63-87 | the loop keeps the paths the specification keeps, in order |
| PathFilter.IgnoredByAny | pkg/config/filter.go:68-81 | the inner loop finds exactly whether some pattern ignores the file |
| PathFilter.RegoFiles | pkg/config/filter.go:19-26 | the walk keeps exactly the walked files ending in ".rego" |
| PathFilter.FilterIgnoredPaths | pkg/config/filter.go:15-40 | with file checks a failed walk is an error and otherwise the walked Rego files are filtered; without them the given paths are filtered |
| RegalConfig.SelectedLevel | pkg/config/bundle.go:66-85 | a level the user set for the rule always wins |
| RegalConfig.LevelPrecedence | pkg/config/bundle.go:66-85 | without a user level: the category default when it has one (an empty one keeps the provided level), else the global default when set, else the provided level |
| RegalConfig.AdoptCategory | pkg/config/bundle.go:56-89 | within one category, each rule the provided configuration knows gets its selected level; the others are unchanged |
| RegalConfig.ExtractUserRuleLevels | pkg/config/bundle.go:54-91 | only the rule levels change: every provided rule gets its selected level, every other rule and every other field stays |
| RegalConfig.ProvidedConfLevels | pkg/config/bundle.go:94-106 | a level is recorded for exactly the rule names of the configuration, each one the level of some rule of that name |
| RegalConfig.LoadConfigWithDefaults | pkg/config/bundle.go:13-50 | without a user configuration the defaults with this version's capabilities; a failed merge is an error; otherwise the merged configuration, with this version's capabilities when it has none and the user's level on every provided rule the user set one for |
| Capabilities.SplitOff | internal/capabilities/capabilities.go:258-270 | splitting at the first delimiter: the parts and the delimiter give back the text, and the first part holds no delimiter |
| Capabilities.ParseNumber | internal/capabilities/capabilities.go:258-270 | a version number is a non-empty run of digits no larger than the largest 64-bit integer |
| Capabilities.ParseVersion | internal/capabilities/capabilities.go:258-270 | a parsed version's pre-release part is made of valid identifiers |
| Capabilities.IdentLessIrreflexive | internal/capabilities/capabilities.go:279 | no pre-release identifier is less than itself |
| Capabilities.IdentLessTransitive | internal/capabilities/capabilities.go:279 | the order of pre-release identifiers is transitive |
| Capabilities.IdentLessTotal | internal/capabilities/capabilities.go:279 | two different identifiers are always ordered |
| Capabilities.IdentsLessIrreflexive | internal/capabilities/capabilities.go:279 | no list of identifiers is less than itself |
| Capabilities.IdentsLessTransitive | internal/capabilities/capabilities.go:279 | the order of identifier lists is transitive |
| Capabilities.PreReleaseLessTransitive | internal/capabilities/capabilities.go:279 | the order of pre-release parts is transitive |
| Capabilities.VersionLessIrreflexive | internal/capabilities/capabilities.go:279 | no version is less than itself |
| Capabilities.VersionLessTransitive | internal/capabilities/capabilities.go:279 | the order of versions is transitive |
| Capabilities.SortLessIrreflexive | internal/capabilities/capabilities.go:247-294 | the sort comparator never puts a name before itself |
| Capabilities.SortLessTransitive | internal/capabilities/capabilities.go:247-294 | the sort comparator is transitive |
| Capabilities.SortLessStrict | internal/capabilities/capabilities.go:247-294 | the sort comparator is a strict order |
| Capabilities.SemverSort | internal/capabilities/capabilities.go:242-300 | the result is a permutation of the input, in descending order of the comparator |
| Capabilities.DescendingMeans | internal/capabilities/capabilities.go:282-299 | in the descending result valid versions come before invalid names, newer versions before older ones, and invalid names in reverse string order |
| Capabilities.DescendingDetermined | internal/capabilities/capabilities.go:242-300 | without ties there is only one descending order of a list |
| Capabilities.ChainDetermines | internal/capabilities/capabilities.go:242-300 | a list strictly decreasing under the comparator is the sorted result of any of its permutations |
| Capabilities.SplitDotted | internal/capabilities/capabilities.go:258-270 | "a.b.c" with digit parts splits into the three parts |
| Capabilities.ParsesPlain | internal/capabilities/capabilities.go:258-270 | "a.b.c" of digit parts parses as that version with no pre-release |
| Capabilities.ParsesDigits | internal/capabilities/capabilities.go:258-270 | "x.y.z" of single digits parses as that version |
| Capabilities.VersionsSort | internal/capabilities/capabilities.go:278-280 | two valid versions sort by their version order |
| Capabilities.InvalidBeforeValid | internal/capabilities/capabilities.go:287-289 | an invalid name sorts before a valid version, so it ends up after it |
| Capabilities.LetterInvalid | internal/capabilities/capabilities.go:258-270 | a one-letter name is not a valid version |
| Capabilities.VersionExamplesOrdered | internal/capabilities/capabilities_test.go:62-73 | the versions of the tests are ordered as their numbers say |
| Capabilities.NameExamplesOrdered | internal/capabilities/capabilities_test.go:67-73 | the names of the tests sort by string order, before every version |
| Capabilities.ThreeDetermined | internal/capabilities/capabilities.go:242-300 | three names in strictly decreasing order are the only descending order of themselves |
| Capabilities.SevenDetermined | internal/capabilities/capabilities.go:242-300 | seven names in strictly decreasing order are the only descending order of themselves |
| Capabilities.SemverOnlyExample | internal/capabilities/capabilities_test.go:62-63 | 1.2.3, 1.2.4, 1.0.1 sort to 1.2.4, 1.2.3, 1.0.1 |
| Capabilities.NamesOnlyExample | internal/capabilities/capabilities_test.go:67-68 | a, b, c sort to c, b, a |
| Capabilities.MixedExample | internal/capabilities/capabilities_test.go:72-73 | versions come first, newest first, then the names in reverse order |
| Capabilities.List | internal/capabilities/capabilities.go:308-326 | a failure to load either list is an error; otherwise both engines map to their versions, permuted into descending order |
| Capabilities.DescendingHeadNewest | internal/capabilities/capabilities.go:302-307 | nothing in a descending list sorts after its head |
| Capabilities.LookupURL | internal/capabilities/capabilities.go:64-77 | http and https go to the web, file to a file, regal to the embedded database; any other scheme is an error |
| Capabilities.FilePath | internal/capabilities/capabilities.go:196-202 | a path starting with "/" and a drive letter loses its leading slash; any other path is kept |
| Capabilities.PathElements | internal/capabilities/capabilities.go:84-96 | a non-empty path has at least one element |
| Capabilities.CollectPathElements | internal/capabilities/capabilities.go:84-96 | the loop collects the path elements of the specification |
| Capabilities.TrimSlashes | internal/capabilities/capabilities.go:91 | trimming slashes removes only the outer ones |
| Capabilities.PlainJoinEnds | internal/capabilities/capabilities.go:89-94 | plain names joined by "/" neither start nor end with a slash |
| Capabilities.PathElementsStep | internal/capabilities/capabilities.go:89-94 | one more name at the end of a path adds one element at the end |
| Capabilities.SingleElement | internal/capabilities/capabilities.go:89-94 | "/name" has the one element name |
| Capabilities.PlainPathElements | internal/capabilities/capabilities.go:84-96 | the elements of "/" followed by plain names joined by "/" are those names, in order |
| Capabilities.ElementsOfPlainPath | internal/capabilities/capabilities.go:84-96 | cleaning such a path keeps its elements |
| Capabilities.LookupEmbeddedAsWritten | internal/capabilities/capabilities.go:113-121 | as written, the path "capabilities" alone reaches elems[1] out of range and panics; every other path behaves as the corrected lookup |
| Capabilities.BareCapabilitiesPanics | internal/capabilities/capabilities.go:113-121 | regal:///capabilities panics as written |
| Capabilities.LookupEmbeddedURL | internal/capabilities/capabilities.go:79-194 | a first element other than "capabilities" or too many elements is an error; "default" is this version; an engine with a version gives that version; an engine alone gives the engine's first listed version |
| Capabilities.LatestOrGiven | internal/capabilities/capabilities.go:127-172 | the version in the path, or else the first listed for the engine, failing when the listing fails, lacks the engine or has no versions |
| Capabilities.LatestVersionChosen | internal/capabilities/capabilities.go:129-307 | an engine alone picks a newest listed version: nothing sorts after it, and it is valid whenever some listed version is |
| Capabilities.DefaultIsThisVersion | internal/capabilities/capabilities.go:121-123 | regal:///capabilities/default gives this version's capabilities |
| Capabilities.JoinFour | internal/capabilities/capabilities.go:113-119 | four names join with slashes between them |
| Capabilities.TooManyElements | internal/capabilities/capabilities.go:113-119 | four path elements are an error |
| Capabilities.RegalElements | internal/capabilities/capabilities.go:72-96 | a regal URL over plain names looks up exactly those names |
| Capabilities.RegalDispatch | internal/capabilities/capabilities.go:72-85 | a regal URL is looked up by the elements of its cleaned path |
| CompletionUtils.FirstSpace | internal/lsp/completions/providers/utils.go:16 | the index of the first white-space character, or the length when there is none |
| CompletionUtils.SkipSpaces | internal/lsp/completions/providers/utils.go:16 | the text after its leading white space, which it starts with none of |
| CompletionUtils.SplitWhiteSpace | internal/lsp/completions/providers/utils.go:16 | splitting on runs of white space gives at least one piece |
| CompletionUtils.SplitWordThen | internal/lsp/completions/providers/utils.go:16 | a word followed by white space splits into the word and the pieces of what follows the white space |
| CompletionUtils.SplitWord | internal/lsp/completions/providers/utils.go:16 | a word without white space is one piece |
| CompletionUtils.SplitTwoWords | internal/lsp/completions/providers/utils.go:16 | "w p" splits into w and p |
| CompletionUtils.SplitWordSpace | internal/lsp/completions/providers/utils.go:16 | a word and one space split off from what follows |
| CompletionUtils.JoinHead | internal/lsp/completions/providers/utils.go:16 | joined words start with the first word's first character |
| CompletionUtils.SplitJoinedWords | internal/lsp/completions/providers/utils.go:16 | words without white space joined by single spaces split back into the same words |
| CompletionUtils.NonSpaceAppend | internal/lsp/completions/providers/utils.go:16 | dropping white space distributes over concatenation |
| CompletionUtils.NonSpaceOfSpaces | internal/lsp/completions/providers/utils.go:16 | leading white space contributes nothing |
| CompletionUtils.NonSpaceOfWord | internal/lsp/completions/providers/utils.go:16 | a text without white space is kept whole |
| CompletionUtils.WordsKeepText | internal/lsp/completions/providers/utils.go:16 | the pieces together hold exactly the text's non-space characters, in order |
| CompletionUtils.WordsHaveNoSpace | internal/lsp/completions/providers/utils.go:16 | no piece holds white space |
| CompletionUtils.FirstWordEmpty | internal/lsp/completions/providers/utils.go:13-16 | the first piece is empty exactly when the text is empty or starts with white space |
| CompletionUtils.SplitStep | internal/lsp/completions/providers/utils.go:16 | a text with white space splits into what comes before it and the pieces after it |
| CompletionUtils.LastWordEmpty | internal/lsp/completions/providers/utils.go:16 | the last piece is empty exactly when the text is empty or ends in white space |
| CompletionUtils.SeveralWords | internal/lsp/completions/providers/utils.go:16 | there are two pieces or more exactly when the text holds white space |
| CompletionUtils.CompletionLineHelper | internal/lsp/completions/providers/utils.go:20-34 | a file the cache lacks has no lines; otherwise its lines join back to its content, and the current line is the one asked for, or "" past the end |
| CompletionUtils.RangeOrder | internal/lsp/completions/providers/ruleheadkeyword.go:92 | a map's keys in range order: each key exactly once |
| CompletionUtils.LastSpaceWord | internal/lsp/completions/providers/packagerefs.go:39-40 | the last piece of the line split at spaces holds no space |
| CompletionUtils.MergeFile | internal/lsp/completions/providers/packagerefs.go:51-72 | the refs of one file that pass the filter overwrite the map; all others leave it alone |
| CompletionUtils.FilterOtherFiles | internal/lsp/completions/providers/packagerefs.go:46-73 | every kept ref passes the filter and comes from a file other than the current one, and every such ref's key is kept |
| CompletionUtils.InsertIncreasing | internal/lsp/completions/providers/utils.go:51-57 | inserting a new depth keeps the list strictly increasing and adds exactly that depth |
| CompletionUtils.BucketByDepth | internal/lsp/completions/providers/utils.go:38-49 | every ref sits in the bucket of its depth (the number of dots of its key), and every bucket is non-empty and holds only refs of its depth |
| CompletionUtils.SortedDepths | internal/lsp/completions/providers/utils.go:51-57 | the depths, strictly increasing, each exactly once |
| CompletionUtils.GroupKeyedRefsByDepth | internal/lsp/completions/providers/utils.go:38-60 | the buckets by depth and their depths in increasing order |
| CompletionUtils.EditStart | internal/lsp/completions/providers/ruleheadkeyword.go:104 | the corrected start of the word before the cursor: the cursor less the word's length, or 0 when the word is longer |
| CompletionUtils.EditStartAgrees | internal/lsp/completions/providers/ruleheadkeyword.go:104 | when the word fits before the cursor the corrected start is the one the source computes |
| CompletionUtils.EditStartWraps | internal/lsp/completions/providers/ruleheadkeyword.go:104 | as written, a word longer than the cursor's offset wraps the start past the cursor |
| CompletionsManager.FirstMandatory | internal/lsp/completions/manager.go:67-72 | the first mandatory item of a provider, or none when no item is mandatory |
| CompletionsManager.FirstMandatoryAt | internal/lsp/completions/manager.go:67-72 | the first mandatory item is the one at the first mandatory index |
| CompletionsManager.GatherStep | internal/lsp/completions/manager.go:61-77 | a provider without a mandatory item contributes its cleared items before the rest; one with a mandatory item ends the run with it |
| CompletionsManager.PrependTwice | internal/lsp/completions/manager.go:67-76 | prepending two lists is prepending their concatenation |
| CompletionsManager.GatherStops | internal/lsp/completions/manager.go:61-79 | everything is collected exactly when every provider answers cleanly; otherwise the run ends with the first failing provider's error or the first mandatory item |
| CompletionsManager.CollectedItems | internal/lsp/completions/manager.go:67-76 | a collected list holds every provider's items with their Regal data cleared and nothing else, and none is mandatory |
| CompletionsManager.GatherAppend | internal/lsp/completions/manager.go:61-84 | registering one more clean provider appends its cleared items |
| CompletionsManager.CommentAtCursor | internal/lsp/completions/manager.go:86-100 | a comment on the cursor's line starting at or before it counts as one the cursor is in |
| CompletionsManager.Manager.constructor | internal/lsp/completions/manager.go:28-30 | a new manager has no providers |
| CompletionsManager.Manager.RegisterProvider | internal/lsp/completions/manager.go:82-84 | the provider is appended |
| CompletionsManager.Manager.IsInsideOfComment | internal/lsp/completions/manager.go:86-100 | true exactly when the module is known and one of its comments is on the cursor's line at or before it |
| CompletionsManager.Manager.Run | internal/lsp/completions/manager.go:46-80 | inside a comment an empty list; otherwise the gathered answer of the providers in order |
| CompletionsManager.NewDefaultManager | internal/lsp/completions/manager.go:32-44 | the six default providers, in their order |
| CompletionsManager.CompletionResponse | internal/lsp/server.go:1507-1537 | an ignored file gets an empty complete list; a manager error is reported; a nil list becomes an empty complete list; any other list is sent as incomplete |
| CompletionsManager.NothingOffered | internal/lsp/server.go:1525-1537 | providers that all answer with nothing give an empty complete list, while a comment gives an empty incomplete one |
| CompletionsManager.GatherNothing | internal/lsp/completions/manager.go:59-79 | providers that all answer with nothing collect nothing |
| RuleHeadKeyword.KeywordsForWords | internal/lsp/completions/providers/ruleheadkeyword.go:40-88 | fewer than two words, or a package or import line, gives nothing; an empty last word offers all keywords; otherwise at most one keyword, and mandatory |
| RuleHeadKeyword.KeywordChoice | internal/lsp/completions/providers/ruleheadkeyword.go:36-88 | a line in a rule body gives nothing; every keyword offered is one of if, contains and := |
| RuleHeadKeyword.KeywordItem | internal/lsp/completions/providers/ruleheadkeyword.go:97-114 | a keyword item has the keyword as label, keyword kind, and inserts the keyword and a space |
| RuleHeadKeyword.Run | internal/lsp/completions/providers/ruleheadkeyword.go:26-118 | one item per chosen keyword, each once, each replacing the last word up to the end of the line, with columns counted in bytes and the corrected edit start |
| RuleHeadKeyword.RuleNameIsWord | internal/lsp/completions/providers/ruleheadkeyword.go:40-45 | a rule name is one word with nothing to trim |
| RuleHeadKeyword.AfterRuleName | internal/lsp/completions/providers/ruleheadkeyword.go:58-63 | after a rule name and a space all three keywords are offered, not mandatory |
| RuleHeadKeyword.TypedAfterRuleName | internal/lsp/completions/providers/ruleheadkeyword.go:72-87 | a word typed after a rule name offers :=, else contains, else if, whichever it begins first, as mandatory |
| RuleHeadKeyword.TypedAfterContains | internal/lsp/completions/providers/ruleheadkeyword.go:81-82 | a word typed after "name contains x" offers if |
| RuleHeadKeyword.NothingInRuleBody | internal/lsp/completions/providers/ruleheadkeyword.go:36-38 | an indented line offers nothing |
| RuleHeadKeyword.EditReplacesTypedWord | internal/lsp/completions/providers/ruleheadkeyword.go:100-110 | the edit starts where the typed word starts |
| RuleHeadKeyword.AsWrittenStartPastLine | internal/lsp/completions/providers/ruleheadkeyword.go:104 | as written, a cursor before the end of the typed word puts the edit's start past the line's end; the corrected start is 0 |
| RuleHeadKeyword.AllowConExample | internal/lsp/completions/providers/ruleheadkeyword.go:104 | on "allow con" with the cursor at column 2, contains is offered and the start as written is the largest unsigned value less one |
| PackageRefs.PartialIsAncestor | internal/lsp/completions/providers/packagerefs.go:78-92 | a partial key is a package above the key: a dotted prefix of it, shallower than it |
| PackageRefs.AddPartialsOf | internal/lsp/completions/providers/packagerefs.go:79-91 | the partial keys of one key are added without overwriting existing refs, and nothing else is added |
| PackageRefs.AddPartialKeys | internal/lsp/completions/providers/packagerefs.go:75-92 | every found ref is kept, every partial key of a found key is present, and the added ones are partial refs |
| PackageRefs.PackageItem | internal/lsp/completions/providers/packagerefs.go:112-121 | a package item has the ref's label, module kind and description, and replaces from column 7 |
| PackageRefs.GroupTotalStep | internal/lsp/completions/providers/packagerefs.go:100-123 | one more depth group adds its size to the count |
| PackageRefs.UnderLimitStep | internal/lsp/completions/providers/packagerefs.go:101-104 | a group is taken while no more than 10 items were taken before it |
| PackageRefs.ItemsByDepth | internal/lsp/completions/providers/packagerefs.go:99-123 | whole depth groups are taken in increasing depth until more than 10 items are taken |
| PackageRefs.AppendGroup | internal/lsp/completions/providers/packagerefs.go:111-122 | appending one group's items keeps the gathered items in step with their keys |
| PackageRefs.AppendOrdered | internal/lsp/completions/providers/packagerefs.go:100-123 | keys stay distinct and ordered by depth when a deeper group is appended |
| PackageRefs.AppendMembers | internal/lsp/completions/providers/packagerefs.go:100-123 | the keys taken are those of the groups taken |
| PackageRefs.AppendBelow | internal/lsp/completions/providers/packagerefs.go:100-123 | every key taken is shallower than the next group |
| PackageRefs.AppendItems | internal/lsp/completions/providers/packagerefs.go:111-122 | every item is the package item of its key's ref |
| PackageRefs.GroupedComplete | internal/lsp/completions/providers/packagerefs.go:99-123 | a key of the grouped refs that was not taken lies deeper than every key taken, and more than 10 were taken |
| PackageRefs.Suggest | internal/lsp/completions/providers/packagerefs.go:43-123 | the suggested items are distinct, shallowest first, each an offered package's item; a package offered but left out is deeper than all taken, with more than 10 taken; a deeper group is only started within the first 11 items |
| PackageRefs.Run | internal/lsp/completions/providers/packagerefs.go:21-126 | nothing on an empty line or past the file's end; no answer on a line not starting with "import "; otherwise distinct package items, shallowest first, each the item of another file's package or of a package above one, replacing up to the line's byte length; every such package is offered unless more than 10 items were taken from shallower depths only |
| BuiltinsProvider.BuiltinItem | internal/lsp/completions/providers/builtins.go:60-77 | the item has the built-in's name, function kind and documentation, and inserts the name |
| BuiltinsProvider.Run | internal/lsp/completions/providers/builtins.go:26-81 | without options an error; outside a rule body or on a default rule no items; otherwise exactly the built-ins called by name, not deprecated and started by the typed word, each once, each replacing the typed word up to the cursor with the corrected start in bytes |
| BuiltinsProvider.AsWrittenStartWraps | internal/lsp/completions/providers/builtins.go:71 | as written, a cursor left of the typed word's end wraps the edit's start past the line's end; the corrected start is 0 |
| BuiltinsProvider.WordIsNoRuleBody | internal/lsp/completions/providers/builtins.go:84-99 | a line without white space is never a rule body |
| BuiltinsProvider.NoSpaceNoContains | internal/lsp/completions/providers/builtins.go:86-93 | a line without white space holds no text ending in a space |
| RuleRefs.KindAndDetail | internal/lsp/completions/providers/rulerefs.go:83-93 | constant rules show as constants, functions as functions, everything else as a rule |
| RuleRefs.PackageAndRuleIsSuffix | internal/lsp/completions/providers/rulerefs.go:127-140 | the label is shortened to its last two parts when it has three or more, otherwise kept, and the result ends the label |
| RuleRefs.RuleItem | internal/lsp/completions/providers/rulerefs.go:95-121 | the item shows the package and rule, the kind and detail of the ref's kind and its description, and inserts what it shows |
| RuleRefs.Offer | internal/lsp/completions/providers/rulerefs.go:43-122 | every rule ref of another file under an imported package, not private, is offered once |
| RuleRefs.Run | internal/lsp/completions/providers/rulerefs.go:15-125 | nothing on an empty line or past the file's end; no answer outside a rule body or without a module; otherwise exactly the offered refs, each once, each replacing the last word up to the line's byte length with the corrected start |
| RuleRefs.AsWrittenStartWraps | internal/lsp/completions/providers/rulerefs.go:97-98 | as written, a cursor left of the last word's end wraps the edit's start past the line's end; the corrected start is 0 |
| RuleRefs.ContextWithinRuleBody | internal/lsp/completions/providers/rulerefs.go:28-32 | every line rule refs are offered on is a rule body for the built-ins provider too |
| InlayHint.InlayTooltip | internal/lsp/inlayhint/inlayhint.go:75-81 | the tooltip ends with the type line, preceded by the description and a blank line exactly when there is a description |
| InlayHint.HintFor | internal/lsp/inlayhint/inlayhint.go:30-38 | a hint sits at the argument, is labelled with the parameter's name and a colon, is of kind 2, padded on the right only, with a markdown tooltip ending in the type |
| InlayHint.CallHintsExact | internal/lsp/inlayhint/inlayhint.go:23-40 | a call's hints are exactly those of its named parameters that have an argument, never more than its arguments |
| InlayHint.HintsExact | internal/lsp/inlayhint/inlayhint.go:19-44 | the module's hints are exactly those of the supplied named arguments of its calls |
| InlayHint.FromModule | internal/lsp/inlayhint/inlayhint.go:19-44 | the loops yield the hints of the specification, in order |
| InlayHint.FirstErrorLine | internal/lsp/inlayhint/inlayhint.go:47-52 | the loop finds the largest start line of the parse errors |
| InlayHint.LinesBeforeArePrefix | internal/lsp/inlayhint/inlayhint.go:63 | the first n lines form a prefix of the content, followed by a line break unless they are all of it |
| InlayHint.Partial | internal/lsp/inlayhint/inlayhint.go:46-73 | no hints when the errors start on line 0 or past the end; otherwise the hints of the module parsed from the lines before the error, or none when that fails |
| InlayHint.MaxStartLine | internal/lsp/inlayhint/inlayhint.go:47-52 | bounds every error's start line and is one of them, or 0 |
| InlayHint.MaxStartLineIs | internal/lsp/inlayhint/inlayhint.go:47-52 | any bound that is one of the start lines, or 0, is the largest start line |
| Server.Route | internal/lsp/server.go:140-219 | missing parameters are invalid except for shutdown and exit; a handled method is dispatched to its handler; shutdown, exit and cancellation answer an empty object, except an exit whose closing of the connection fails, which answers "failed to close connection: " and the error; any other method is not supported, with its name in the message |
| Server.PositionToOffset | internal/lsp/server.go:2489-2507 | the loop computes the offset as written: the start of the line, counting each earlier line's bytes and its line break, plus the character; -1 for a line outside 1 to the line count |
| Server.LineStartJoin | internal/lsp/server.go:2491-2498 | line n starts one byte past the UTF-8 encoding of the lines before it joined by line breaks |
| Server.LineStartAfterBreak | internal/lsp/server.go:2491-2498 | line n of the text starts right after its n-th line break: at the byte length of the text up to and including that break |
| Server.ByteOffsetExample | internal/lsp/server.go:2495 | offsets count bytes: in "ä\nx" the start of line 1 is 3 |
| Server.FirstLineOffset | internal/lsp/server.go:2501-2506 | as written a position on line 0 has offset -1; as intended its offset is its character |
| Server.OffsetAgrees | internal/lsp/server.go:2489-2507 | on the other lines of the text the two offsets agree, and past its end both are -1 |
| Server.LongestRootIsLongest | internal/lsp/server.go:971-977 | the chosen root prefixes the directory and no root prefixing it is longer, and it is "" only when no non-empty root prefixes it |
| Server.LongestPrefixRoot | internal/lsp/server.go:971-977 | the loop chooses the longest root of the specification |
| Server.Compact | internal/lsp/server.go:983 | runs of equal parts collapse to one: the same parts, no two neighbours equal, the first kept |
| Server.CompactRuns | internal/lsp/server.go:983 | the input is each element of the result repeated a positive number of times, in order; with no equal neighbours in the result, this fixes the result uniquely |
| Server.CompactKeepsApart | internal/lsp/server.go:983 | equal parts that are not neighbours are both kept: ["a", "b", "a"] stays whole |
| Server.PackageFromParts | internal/lsp/server.go:985-1006 | the loop builds the package of the specification from the parts |
| Server.InvalidPartIsFirst | internal/lsp/server.go:989-996 | the package fails exactly when some non-empty part is invalid, and then it names such a part |
| Server.PlainPartsJoined | internal/lsp/server.go:998-1005 | valid parts without dashes are appended with dots |
| Server.PlainPackage | internal/lsp/server.go:998-1005 | valid parts without dashes make the package of those parts joined by dots |
| Server.OneCharacterPartRejected | internal/lsp/server.go:987-996 | a one-character directory never makes a valid package part |
| Server.Header | internal/lsp/server.go:1017 | the template is "package", the name and the rego.v1 import |
| Server.PackageName | internal/lsp/server.go:1008-1015 | a file not ending in "_test.rego" gets exactly the package, or main when the package is empty; a test file gets that name with "_test" added |
| Server.RepeatedDirectoryCollapses | internal/lsp/server.go:983-1006 | a directory repeated twice below the root makes a package of one part |
| Server.RepeatedDirectoryParts | internal/lsp/server.go:983 | the repeated directory yields one part after the leading empty one |
| Server.SplitOfSlashes | internal/lsp/server.go:983 | "/a/a" splits into "", a and a |
| Server.SplitWord | internal/lsp/server.go:983 | a name before a slash splits off first |
| Server.TemplateContents | internal/lsp/server.go:945-1018 | a file unknown to the cache, or with contents in the cache or on disk, is not templated; failing roots are an error; otherwise the outcome below the root |
| Server.TemplateBelowRoot | internal/lsp/server.go:971-1017 | no root prefixing the directory, or an invalid part below it, is an error; otherwise the header of the package its directories make |
| LspRego.Int64 | internal/lsp/rego/rego.go:117-122 | a Go int conversion: values up to the largest int64 are kept, larger ones wrap modulo 2^64 |
| LspRego.PositionFromLocation | internal/lsp/rego/rego.go:109-115 | a 1-based row and column become the 0-based line and character |
| LspRego.LocationFromPosition | internal/lsp/rego/rego.go:117-122 | a 0-based line and character become the 1-based row and column |
| LspRego.IntThereAndBack | internal/lsp/rego/rego.go:109-122 | every int64 survives the conversion to uint and back |
| LspRego.UintThereAndBack | internal/lsp/rego/rego.go:109-122 | every uint survives the conversion to int and back |
| LspRego.PositionRoundTrip | internal/lsp/rego/rego.go:109-122 | a position turned into a location and back is unchanged |
| LspRego.LocationRoundTrip | internal/lsp/rego/rego.go:109-122 | a location turned into a position and back is unchanged |
| LspRego.ToValidResult | internal/lsp/rego/rego.go:252-265 | an evaluation error, no result, several results or not exactly one expression are errors, in that order; otherwise the one result |
| LspLog.Ord | internal/lsp/log/logger.go:14-23 | the levels are numbered 0, 1 and 2, Off lowest and Debug highest |
| LspLog.LevelName | internal/lsp/log/logger.go:32-34 | each level is shown as Off, Messages or Debug |
| LspLog.LevelNameInjective | internal/lsp/log/logger.go:32-34 | no two levels share a name |
| LspLog.ShouldLogOrder | internal/lsp/log/logger.go:36-38 | a level logs itself and everything below; raising the level never silences a message; Off logs only Off and Debug logs everything |
| LspLog.TraceValueToLevel | internal/lsp/log/logger.go:40-51 | exactly "off", "messages" and "verbose" name a level; anything else is an error naming the value |
| LspLog.TraceValueRoundTrip | internal/lsp/log/logger.go:40-51 | each level has exactly one trace value, which reads back as that level |
| LspLog.AfterLog | internal/lsp/log/logger.go:75-87 | the output gains the message exactly when the level admits it and there is an output, and otherwise is unchanged |
| LspLog.Logger.constructor | internal/lsp/log/logger.go:53-55 | a new logger has the given level and writer and has written nothing |
| LspLog.Logger.NoOp | internal/lsp/log/logger.go:57-59 | the no-op logger is off, discards and has written nothing |
| LspLog.Logger.SetLevel | internal/lsp/log/logger.go:61-65 | only the level changes |
| LspLog.Logger.Log | internal/lsp/log/logger.go:75-87 | the output changes as the logging specification says |
| LspLog.Logger.Message | internal/lsp/log/logger.go:67-69 | logs at the Messages level |
| LspLog.Logger.Debug | internal/lsp/log/logger.go:71-73 | logs at the Debug level |
| LspLog.OffWritesNothing | internal/lsp/log/logger.go:36-87 | a logger that is off writes nothing but Off messages |
| LspLog.DebugNeedsDebug | internal/lsp/log/logger.go:36-87 | debug messages reach the output only at Debug, messages at Messages and Debug |
| Connection.IncludeTakesPrecedence | internal/lsp/connection.go:44-61 | an included method is always logged; with some methods included nothing else is; with none included exactly the methods not excluded are |
| Connection.Arrow | internal/lsp/connection.go:122-170 | each direction's arrow is three characters and a space |
| Connection.Render | internal/lsp/connection.go:122-187 | a log line starts with its direction's arrow and ends with a line break |
| Connection.RequestEntry | internal/lsp/connection.go:121-171 | a request or notification is logged under its own method with its parameters, as a notification exactly when it is one |
| Connection.MethodsAfterRecv | internal/lsp/connection.go:113-114 | a received request records its method under its identifier, leaving the other identifiers alone; nothing else changes the table |
| Connection.RecvLog | internal/lsp/connection.go:104-149 | at most one inbound line, for a logged method: a request when its method is logged, a response under its request's method or "(no matching request)", as a result or error, and nothing when it has neither |
| Connection.SendMethod | internal/lsp/connection.go:174 | a response is logged under the non-empty method remembered for its identifier, else "(no previous request)" |
| Connection.MethodsAfterSend | internal/lsp/connection.go:173-176 | a sent response forgets its identifier's method; nothing else changes the table |
| Connection.SendLog | internal/lsp/connection.go:151-191 | at most one outbound line, for a logged method: a request when its method is logged, a response under SendMethod, as a result when it has one and as an error otherwise |
| Connection.RecvThenSend | internal/lsp/connection.go:104-191 | a request received and then answered is logged under the request's method, when that is logged, and its identifier is forgotten afterwards |
| Connection.MessageLog.constructor | internal/lsp/connection.go:86-92 | the connection starts with an empty table and has logged nothing |
| Connection.MessageLog.Received | internal/lsp/connection.go:94-149 | with inbound logging the receive handler updates the table and log; without it nothing changes |
| Connection.MessageLog.Sent | internal/lsp/connection.go:98-191 | with outbound logging the send handler updates the table and log; without inbound logging every response is logged under "(no previous request)" |
| Reporter.CountedReadsBack | pkg/reporter/reporter.go:68-83 | a count and its noun read back as the number and the noun, plural exactly for more than one (and for none where the footer says "0 files") |
| Reporter.OutcomeWordsHaveNoSpace | pkg/reporter/reporter.go:75-95 | the words of the violations part hold no space |
| Reporter.OutcomeJoin | pkg/reporter/reporter.go:75-95 | the violations part is its words joined by spaces |
| Reporter.OutcomeReadsBack | pkg/reporter/reporter.go:75-95 | "No violations found." exactly without violations; otherwise the number of violations reads back, and the failed files are named, with their number, exactly when more than one file was scanned and some failed |
| Reporter.ListedIsFilter | pkg/reporter/reporter.go:109-113 | the notices listed are exactly those whose severity is not "none" |
| Reporter.ListedStep | pkg/reporter/reporter.go:109-113 | one more notice adds its line exactly when its severity is not "none" |
| Reporter.NoticeLinesStep | pkg/reporter/reporter.go:111 | one more notice appends its line |
| Reporter.SkippedPart | pkg/reporter/reporter.go:97-114 | the skipped-rules part is empty exactly when no rule was skipped |
| Reporter.BuildFooter | pkg/reporter/reporter.go:68-114 | the footer the loop builds is the footer of the specification |
| Reporter.AppendNoticeLines | pkg/reporter/reporter.go:109-113 | the loop appends the lines of the listed notices |
| Reporter.EmptyReportLine | pkg/reporter/reporter_test.go:140-151 | an empty report prints "0 files linted. No violations found." and a line break |
| Reporter.FooterCountsFiles | pkg/reporter/reporter.go:68-73 | the footer starts with the number of files linted, then "files" for none or several and "file" for one |
| Reporter.FooterShape | pkg/reporter/reporter.go:68-114 | the footer is the file count, the linted part, the violations part and the skipped part |
| Reporter.FooterEndsWithNotices | pkg/reporter/reporter.go:97-114 | when rules were skipped the footer ends with the listed notices' lines |
| Reporter.ForJson | pkg/reporter/reporter.go:176-179 | the JSON report always has a violations list, the report's own when it has one, and the same notices and summary |
| Reporter.ForJsonIdempotent | pkg/reporter/reporter.go:176-179 | preparing a report twice is preparing it once, and keeps its violations |
| Reporter.PrettyOutput | pkg/reporter/reporter.go:65-119 | the output starts with the table rows, ends with the footer and a line break, and has a blank line between them exactly when there are violations; the footer's content is stated by Reporter.FooterShape, Reporter.FooterCountsFiles, Reporter.FooterEndsWithNotices and Reporter.EmptyReportLine |
| Reporter.UniqueViolationURLs | pkg/reporter/reporter.go:281-288 | every key is the description of some violation; Reporter.UniqueURLKeys adds that every description is a key, and Reporter.UniqueURLIsLast that each maps to the link of the last violation with it |
| Reporter.DocumentationURL | pkg/reporter/reporter.go:271-279 | the reference of the first resource described as "documentation", or "" when there is none |
| Reporter.UniqueURLKeys | pkg/reporter/reporter.go:281-288 | the map has exactly the violations' descriptions as keys |
| Reporter.UniqueURLIsLast | pkg/reporter/reporter.go:281-288 | each description maps to the documentation link of the last violation with it |
| CmdLint.CheckArgs | cmd/lint.go:94-100 | no path is an error with its message; any path passes |
| CmdLint.RepeatedStringFlag.constructor | cmd/lint.go:66-69 | a new flag holds nothing and is not set |
| CmdLint.RepeatedStringFlag.Set | cmd/lint.go:79-84 | the value is appended, the flag is set, and it never fails |
| CmdLint.FlagTextReadsBack | cmd/lint.go:75-84 | values without commas read back from the flag's text |
| CmdLint.CountLevel | cmd/lint.go:116-125 | the count never exceeds the violations and is 0 exactly when none is at the level |
| CmdLint.CountLevelStep | cmd/lint.go:119-125 | one more violation adds one exactly when it is at the level |
| CmdLint.ErrorsAndWarnings | cmd/lint.go:116-125 | errors and warnings together never outnumber the violations |
| CmdLint.WarningIsStricter | cmd/lint.go:127-139 | failing on warnings fails whenever failing on errors does, with the same code, and also on warnings alone |
| CmdLint.ExitCode | cmd/lint.go:102-145 | 1 when linting failed; with fail level "error" 3 exactly when some violation is an error; with "warning" 3 for errors, else 2 for warnings; 0 otherwise and for any other level |
| CmdLint.CountFound | cmd/lint.go:116-125 | the loop counts the errors and the warnings |
| CmdNew.ValidNameMatches | cmd/new.go:42-85 | the name check accepts exactly the names matching `^[a-z_]+[a-z0-9_\-]*$` |
| CmdNew.CategoryIsName | cmd/new.go:41-42 | every category is a valid name, but a name with an underscore is not a category |
| CmdNew.Validate | cmd/new.go:68-90 | valid exactly when the type is custom or builtin, the category is lowercase letters and the name matches its pattern; the type, a missing category, a malformed category, a missing name and a malformed name each give their own error message, in that order |
| CmdNew.TemplateNames | cmd/new.go:353-365 | a name with a dash or underscore becomes a quoted ref with dashes for underscores, its test ref having "_test" inside the quotes; any other name is a plain ".name" ref and ".name_test" |
| CmdNew.ContainsChar | cmd/new.go:356-359 | containing a one-character text is containing that character |
| CmdNew.TemplateValuesOf | cmd/new.go:348-372 | the category and name are kept as given, and the refs are those of TemplateNames |
| CmdNew.TestNameFollowsName | cmd/new.go:353-365 | the test ref is the rule ref with "_test" after the name, inside the quotes of a quoted ref; a quoted ref holds no underscore |
| CmdNew.UnderscoreBecomesDash | cmd/new.go:353-361 | a name with an underscore becomes a quoted ref without underscores, four characters longer |

## Left out

- Go map iteration order is random. Where the source ranges over a map, the model either picks the next key nondeterministically or takes the order as a ghost or explicit parameter (`CompletionUtils.RangeOrder`). Where the source does not sort, results are stated as sets or as "every key once".
- The Rego parser, the formatter, OPA evaluation and the scanner are given as parameters or as their outcome:
  - parsed modules and package-path terms;
  - built-in calls and the built-ins table;
  - the token stream of the folding-range scanner;
  - the linter's report;
  - the evaluation result checked by `toValidResult`.
- Finding the comments and the module of a file in the server cache is a parameter of the completion manager and the providers. What each provider answers is the manager's parameter `run`; the provider logic itself lives in the provider modules.
- The remaining completion providers (common rule, input, default, import, package, package name, rego.v1, rule head, used refs and policy) are not part of this model. The same holds for the hover, definition and reference handlers, the fixer's text reporter and `pkg/hints`.
- File system, HTTP and embedded-file I/O are out of the model:
  - walking directories (the ignore filter is given the walked paths);
  - reading and writing files;
  - loading capabilities documents (a lookup ends in the source it would load from);
  - writing the scaffold of `regal new`;
  - profiling and `RUNNER_DEBUG` output in `regal lint`.
- Concurrency is out of the model: the mutexes of the cache, the logger and the concurrent maps, the JSON-RPC connection, the worker goroutines and channels, and the file watchers. The model is sequential.
- Closing the JSON-RPC connection on `exit` is a parameter of `Server.Route`: the outcome of the close (an error message or none) is given, and a failed close is answered with "failed to close connection: " and the message. The rest of the transport is not modelled.
- JSON and YAML encoding are out of the model:
  - the connection logger receives identifiers, parameters, results and errors already rendered as text;
  - the JSON reporter is modelled only by the empty violation list it substitutes;
  - `StructToValue` is modelled by its omitempty rule, not by reflection.
- Formatting details outside the text that the model builds are out of the model:
  - Go's `%q` quoting in error messages, which are stated up to the quoted text;
  - `LspLog.Logger.Log` takes the message already formatted: `logf`'s `fmt.Sprintf` of the message with its arguments is not modelled;
  - `Rast.UnquotedPath` renders a string term through `strconv.Quote`, of which the model writes out the escapes of the quote, the backslash and the named control characters (`\n`, `\t`, `\r`, `\a`, `\b`, `\f`, `\v`); the `\x`, `\u` and `\U` escapes of other non-printable characters are not modelled, and such characters are kept as they are;
  - the pretty reporter's table layout and colours (table rows are given as text);
  - the compact reporter;
  - the GitHub reporter's annotation lines and job summary, apart from the documentation link they end with (`Reporter.DocumentationURL`).
- Character units:
  - where the source takes `len` of a Go string to compute a column or an offset (`Server.PositionToOffset`, the completion providers' edit ranges, `RuleHeadKeyword.Run`), the model counts UTF-8 bytes with `Utf8.ByteLen`;
  - `NonRawRegexPattern` indexes a line converted to runes, and the model indexes code points there as the source does;
  - the protocol's own unit, UTF-16 code units, is not modelled, and neither is the conversion the source never performs.
- `strconv.Atoi` is modelled on unbounded integers. The 64-bit range is written out only where the code compares parsed numbers (semantic-version identifiers). Elsewhere, an out-of-range number is not rejected as Go rejects it.
- Sorting algorithms: `sort.Slice` and `slices.Sort` stand for library algorithms. An insertion sort gives the same outcome (a sorted permutation), but the library's tie order for equal keys is not modelled.
- Semantic versions are parsed and compared as the `github.com/coreos/go-semver/semver` library's `NewVersion` and `Compare` do (`Capabilities.ParseVersion`). That library accepts no leading "v" and requires all three numbers. Like it, the model reads each number with `ParseInt`, so it accepts leading zeros, which Semantic Versioning 2.0.0 forbids.
- URL parsing: a capabilities URL is given already split into scheme and path.
- Glob matching is the subset the ignore patterns produce, namely `*`, `?` and `**`, with `/` as the separator. Character classes and escapes are not modelled.
- `types.Ref` and the protocol's completion item kinds are reduced to the fields that the modelled code reads.
- Some helpers exist twice in the repository, in two versions (`groupKeyedRefsByDepth` in `providers/utils.go` and `providers/packagerefs.go`; the inlay-hint builder and the partial parse in `internal/lsp/inlayhint.go`, `internal/lsp/server.go` and `internal/lsp/inlayhint/inlayhint.go`, where the last copy is the one modelled). One copy is modelled, and its lines are cited.
- The package-ref provider's hover and documentation fields are not modelled.
- `RuleDetail.SimplifyType` is stated for the general shape of a type string; no lemma about a particular literal type string is given.
- `Connection.RecvLog`: a response received without its request is logged under "(no matching request)", as in the source.
- `Connection.SendMethod`: when inbound logging is off, no request method is remembered, so every sent response is logged under "(no previous request)" (`Connection.MessageLog.Sent`), as in the source.
- `os.PathSeparator` is modelled as '/': paths are split and joined on '/' (`Server.DirectoryParts`, the ignore patterns). Windows separators are not modelled.
- `RegalConfig.LoadConfigWithDefaults`: the configuration merged by the `mergo` library is a parameter and is not constrained; the contract states the steps around the merge.
- `NonRawRegexPattern.Fix` (and `NonRawRegexPattern.FixAll`) requires every violation to carry an end location (`EndsPresent`). The source dereferences the end without a check and would panic on a violation without one.
- `Fixer.RecordFix`: the source calls `AddFileFix`, whose definition is not part of this model. It is modelled as `SetFileFixedViolation` of the fix's title (`pkg/fixer/report.go`), which is an assumption about that method.
- `RuleHeadKeyword.Run` uses the corrected edit start (`CompletionUtils.EditStart`); the start as written wraps around when the cursor is left of the typed word's end (see Findings).
- `BuiltinsProvider.Run` uses the corrected edit start (`CompletionUtils.EditStart`); the start as written at builtins.go:71 wraps around in the same way (see Findings).
- `RuleRefs.Run` uses the corrected edit start (`CompletionUtils.EditStart`); the start as written at rulerefs.go:97-98 wraps around in the same way (see Findings).
- `PathFilter.ExcludeFile` requires a non-empty pattern. The source would index past the end of an empty pattern, and `filterPaths` never passes one.
- `Fixer.Fixer.ApplyMandatoryFixes` runs at most `maxPasses` passes, where the source loops until a pass changes nothing. Its contract speaks only of the passes that ran.
- `Format.ComputeEdits` promises its edits only when it returns some: it returns none when `Diff.Operations` gives up (see the `Diff.Operations` line), and that this never happens is not proved.
- `FoldingRange.TokenFoldingRanges` (and `FoldingRange.ScanToken` and `FoldingRange.FindFoldingRanges`) use the corrected end line `FoldingRange.EndLine`, that is `Clamp(row - 2)`, instead of `uint(position.Row - 2)` at foldingrange.go:61, 77 and 93, which wraps around for a closer on the first row (see Findings, `FoldingRange.EndLineWrapsOnFirstRow`).
- `Diff.Operations` returns no operations when the forward search does not finish within len(a) + len(b) rounds. That the search always finishes (the edit-distance argument) is not proved. The contract is partial correctness: when operations are returned, applying them to a yields b.
- `Capabilities.SemverSort` does not model the memo of parsed versions, which only saves work.

## Findings

| source | as written | input that shows it | evidently intended | confidence | as-written member | corrected member |
|---|---|---|---|---|---|---|
| pkg/fixer/fixes/nonrawregexpattern.go:35-44 | the guard skips a location only when its end column is greater than the line's length, and the code then reads `line[endIdx]` | a location whose end column is the length of the line, e.g. `"a"` with end 3 | skip also when the end column equals the line's length, so that only 0 <= start < end < len(line) reaches the index | not executed | NonRawRegexPattern.AsWrittenAdmitsEndOfLine | NonRawRegexPattern.SkipsGuardsIndex |
| internal/lsp/foldingrange.go:61 | the end line of a bracket, brace or parenthesis range is `uint(row - 2)` | a closing token on row 1 gives end line 2^64 - 1 | the line before the closer's, but never below line 0 | not executed | FoldingRange.EndLineWrapsOnFirstRow | FoldingRange.EndLineWithinText |
| internal/lsp/foldingrange.go:77 | the end line of a bracket, brace or parenthesis range is `uint(row - 2)` | a closing token on row 1 gives end line 2^64 - 1 | the line before the closer's, but never below line 0 | not executed | FoldingRange.EndLineWrapsOnFirstRow | FoldingRange.EndLineWithinText |
| internal/lsp/foldingrange.go:93 | the end line of a bracket, brace or parenthesis range is `uint(row - 2)` | a closing token on row 1 gives end line 2^64 - 1 | the line before the closer's, but never below line 0 | not executed | FoldingRange.EndLineWrapsOnFirstRow | FoldingRange.EndLineWithinText |
| internal/capabilities/capabilities.go:113-121 | the length check only rejects paths with more than three elements, then reads `elems[1]` | the URL `regal:///capabilities`, whose path has the single element "capabilities", indexes past the end | a path without an engine element is malformed, like one with too many | not executed | Capabilities.BareCapabilitiesPanics | Capabilities.LookupEmbeddedURL |
| internal/lsp/completions/providers/ruleheadkeyword.go:104 | the edit starts at `Character - uint(len(lastWord))` in `uint` | on the line `allow con` with the cursor at character 2 (inside the rule name), the last word `con` is longer than the cursor's offset and the start is 2^64 - 1 | the start of the word before the cursor, never before the line's start | not executed | RuleHeadKeyword.AllowConExample | CompletionUtils.EditStartAgrees |
| internal/lsp/server.go:2489-2507 | the loop returns after line `i` when `i == Line - 1`, i.e. at the start of line `Line` | any position on line 0, e.g. (0, 5), gives -1 | the offset of line 0 is its character | not executed | Server.FirstLineOffset | Server.OffsetAgrees |
| internal/lsp/completions/providers/builtins.go:71 | the edit starts at `Character - uint(len(lastWord))` in `uint` | the rule-body line `  count` with the cursor at character 4, inside the typed word | the start of the typed word, never before the line's start | not executed | BuiltinsProvider.AsWrittenStartWraps | CompletionUtils.EditStartAgrees |
| internal/lsp/completions/providers/rulerefs.go:97-98 | the edit starts at `Character - uint(len(last space-separated piece))` in `uint` | the rule-body line `  count` with the cursor at character 4, inside the last word | the start of the last word, never before the line's start | not executed | RuleRefs.AsWrittenStartWraps | CompletionUtils.EditStartAgrees |
