# super_replace in Dafny

`splace` (lib/super_replace.rb, class `SuperReplace::Base`) is a one-shot refactoring tool. Given `from` and `to`, it does one of two passes:

- **paths** renames every file or directory whose last path component contains `from`, by issuing `git mv` commands.
- **contents** rewrites `from` to `to` inside every source file with an allowed extension.

Both passes preview what they would do. They change nothing unless `--for-real` is given.

This project models the tool's planning core:

- `Candidates`: choosing the candidates, which is the glob result minus every ignore glob's result. This is Ruby's `Array#-`, applied once per ignore pattern.
- `Text`: the string operations.
  - literal replace-all (`String#gsub` with a String pattern)
  - escaping spaces in a path
  - the ANSI bold markers used in the preview
  - splitting a file into the lines `IO#gets` returns
- `Renaming`: the rename planned for each path. This is the escaped source, the destination, the `git mv` command and its highlighted display copy.
- `Scanning`: the content pass.
  - the line-numbered preview of matching lines (the `while` loop with `linenum`)
  - rewriting each candidate file with the literal replace-all
- `SuperReplace`: class `Base`.
  - Its fields are the options, `from`, `to`, the working tree as a map from path to contents, and the list of `git mv` commands issued.
  - Its methods are `run`, `replace_paths` and `replace_contents`.

Two of the tool's collaborators become parameters:

- `Dir.glob` becomes a function `Glob` from a pattern to the paths it lists, in order.
- `String#match` with `from` compiled as a regular expression becomes a predicate `Matcher(pattern, text)`.

Detection and rewriting are kept apart. The content pass decides whether to report a file or line with `Matcher(from, …)`. Its rewrite at line 166 is `String#gsub` with a String pattern, which Ruby matches literally, so the model uses `ReplaceAll`.

Two points about what the code does:

- The content pass detects `from` as a regular expression (`text.match(@from)` at lines 149 and 154), but its rewrite at line 166 matches `from` literally. Backslash sequences such as `\0` in `to` are still expanded by `String#gsub`; the model leaves that out (see "## Left out").
- The rename pass takes whatever the glob `**/*#{from}*` lists (line 107). Which paths that is, for example whether a directory component containing `from` is enough, is left to `Glob`.

## Model

| member | source | states |
|---|---|---|
| Text.ReplaceAll | lib/super_replace.rb:117-120 | `String#gsub` with a String pattern, also at line 166: the leftmost, non-overlapping literal replace-all; an empty pattern inserts the replacement before every character and at the end |
| Text.EscapeSpaces | lib/super_replace.rb:116 | `before.gsub!(' ', '\ ')`: every space gets a backslash in front |
| Text.Bold | lib/super_replace.rb:117-120 | a text wrapped in the BOLDSTART and BOLDEND markers |
| Text.Unbold | lib/super_replace.rb:125 | the printed highlighted command as the terminal shows it, with every bold marker removed |
| Text.Lines | lib/super_replace.rb:153 | the successive results of `file.gets`: the text cut after every newline |
| Candidates.Subtract | lib/super_replace.rb:111 | Ruby's `Array#-`: the elements of the first list that the second does not hold, in order, duplicates kept |
| Candidates.Ignored | lib/super_replace.rb:109-112 | everything the ignore patterns resolve to, pattern after pattern |
| Renaming.MoveCommand | lib/super_replace.rb:123-124 | the command `git mv before after` |
| Renaming.PlanFor | lib/super_replace.rb:116-124 | for one globbed path: the escaped source, the destination with `from` replaced by `to`, the command and its highlighted copy |
| Renaming.RenamePlan | lib/super_replace.rb:114-131 | the plans of the candidate paths, one per path, in their order; each plan's source, unescaped, is its path |
| Renaming.Commands | lib/super_replace.rb:128-130 | the commands of a plan, in order |
| Scanning.Preview | lib/super_replace.rb:152-161 | the matching lines among the file's lines, each with its line number |
| SuperReplace.RenameGlob | lib/super_replace.rb:107 | the rename glob `**/*#{from}*` |
| SuperReplace.ContentsGlob | lib/super_replace.rb:137 | the content glob, built from the extension list |
| SuperReplace.RenameCandidates | lib/super_replace.rb:107-112 | the rename glob's paths minus every rename ignore glob's paths |
| SuperReplace.ContentsCandidates | lib/super_replace.rb:137-142 | the content glob's files minus every content ignore glob's files |
| Text.ReplaceAbsent | lib/super_replace.rb:119 | if a pattern does not occur in the text, replace-all returns the text unchanged (such a pattern is never empty) |
| Text.ReplaceBySelf | lib/super_replace.rb:117 | replacing a pattern by itself returns the text unchanged, empty pattern included |
| Text.ReplaceCharRemovesIt | lib/super_replace.rb:166 | after every occurrence of a character is replaced by text that does not contain it, that character no longer occurs |
| Text.EscapeWithoutSpaces | lib/super_replace.rb:116 | escaping leaves a path without spaces unchanged |
| Text.UnescapeEscape | lib/super_replace.rb:116 | deleting each backslash placed before a space gives back the original path, so escaping is injective |
| Text.EscapedSpacesHaveBackslash | lib/super_replace.rb:116 | in an escaped path, every space is immediately preceded by a backslash |
| Text.EscapeKeepsNoEsc | lib/super_replace.rb:116 | escaping adds no escape character |
| Text.ReplaceCharsFrom | lib/super_replace.rb:119 | every character of a replace-all result comes from the text or from the replacement |
| Text.UnboldReplace | lib/super_replace.rb:117-120 | bold-highlighting every replacement and then removing the markers gives the plain replace-all, followed by whatever came after it |
| Text.UnboldPlain | lib/super_replace.rb:124-125 | removing the markers keeps text that has no escape character |
| Text.LinesConcat | lib/super_replace.rb:153 | the lines `gets` returns, joined back together, are the whole file text |
| Text.LinesShape | lib/super_replace.rb:153 | every line is non-empty and has no newline before its end; every line but the last ends in a newline |
| Candidates.FilterCandidates | lib/super_replace.rb:107-112 | the ignore loop yields the candidates minus the concatenation of every ignore glob's results |
| Candidates.SubtractCounts | lib/super_replace.rb:111 | `a - b` drops every copy of a path in `b` and keeps every copy of any other path, so nothing else is dropped |
| Candidates.SubtractMembers | lib/super_replace.rb:111 | a path is in `a - b` exactly when it is in `a` and not in `b` |
| Candidates.SubtractAppend | lib/super_replace.rb:111 | `(a1 + a2) - b == (a1 - b) + (a2 - b)`, so the glob order is kept |
| Candidates.SubtractTwice | lib/super_replace.rb:109-112 | subtracting one list and then another is the same as subtracting their concatenation |
| Candidates.SubtractNothing | lib/super_replace.rb:109-112 | subtracting an empty list keeps everything, which is the state before the first ignore pattern |
| Candidates.SubtractDistinct | lib/super_replace.rb:111 | if the candidates hold no path twice, the difference holds no path twice |
| Candidates.FilterKeeps | lib/super_replace.rb:137-142 | the filter keeps exactly the candidates that no ignore pattern lists |
| Renaming.SourceIsEscapedPath | lib/super_replace.rb:116 | the command's source is the globbed path with its spaces escaped: unescaping gives the path back, and every space follows a backslash |
| Renaming.AbsentFromKeepsPath | lib/super_replace.rb:119 | if `from` does not occur in the escaped source, the destination equals the source |
| Renaming.SameNameKeepsPath | lib/super_replace.rb:119 | renaming `from` to itself plans `git mv p p` |
| Renaming.HighlightedIsCommand | lib/super_replace.rb:117-126 | with the bold markers removed, the printed command is the executed `git mv before after`, provided path, `from` and `to` hold no escape character |
| Renaming.SpacedFromIsNotRenamed | lib/super_replace.rb:116-119 | if `from` has a space at some position after its first whose preceding character is not a backslash, every path's destination equals its source (for example "a b.txt" with `from` "a b"): in the escaped path every space follows a backslash |
| Scanning.PreviewSound | lib/super_replace.rb:152-161 | every hit is a matching line, numbered by its position from the start number |
| Scanning.PreviewAscending | lib/super_replace.rb:152-161 | hit line numbers strictly ascend, so no line is reported twice |
| Scanning.PreviewComplete | lib/super_replace.rb:152-161 | every matching line is reported |
| Scanning.PreviewExact | lib/super_replace.rb:152-161 | the preview lists each matching line once, in ascending order, and nothing else |
| Scanning.ScanLines | lib/super_replace.rb:151-162 | the `gets` loop, counting `linenum` from 1, returns exactly the preview of the file's lines |
| Scanning.ScanFile | lib/super_replace.rb:144-168 | one iteration reports the file when its whole text matches; for real, it rewrites the file; the tree keeps its set of paths |
| Scanning.ContentsPass | lib/super_replace.rb:144-170 | the pass over the candidates keeps the tree's set of paths |
| Scanning.DryRunWritesNothing | lib/super_replace.rb:165-168 | without `--for-real` the tree is left exactly as it was |
| Scanning.ForRealRewritesCandidates | lib/super_replace.rb:165-168 | for real, each candidate holds the literal replace-all of its original text and every other file is untouched |
| Scanning.UntouchedWhenAbsent | lib/super_replace.rb:165-168 | for real, a file without a literal occurrence of `from` is written back unchanged, however often it is a candidate |
| Scanning.NonCandidateUntouched | lib/super_replace.rb:144-168 | a file that is not a candidate is neither reported nor written, for real or not |
| Scanning.ReportIgnoresForReal | lib/super_replace.rb:144-168 | the report reflects the text before any rewrite: it is the same for real as in a dry run |
| Scanning.ReportsOnlyReadCandidates | lib/super_replace.rb:145 | in a dry run, the report depends only on the contents of the candidate files |
| Scanning.ReportedFiles | lib/super_replace.rb:147-163 | in a dry run, a file gets a report section exactly when it is a candidate whose whole text matches; its hits are the preview of its lines |
| SuperReplace.ContentsGlobPattern | lib/super_replace.rb:137 | the content glob is `**/*.{php,ctp,css,js,jst}` |
| SuperReplace.RenamePlanSkipsIgnored | lib/super_replace.rb:107-116 | every planned source, once unescaped, is a globbed path that no rename ignore pattern lists, and every such path has a plan |
| SuperReplace.IgnoredFileUntouched | lib/super_replace.rb:137-168 | a file listed by a content ignore glob is neither reported nor written, for real or not |
| SuperReplace.Base.constructor | lib/super_replace.rb:53-58 | options start as not for real with no type; `from`, `to` and the issued commands start empty |
| SuperReplace.Base.ReplacePaths | lib/super_replace.rb:96-133 | returns the rename plan for the filtered candidates in glob order; appends each plan's command to the issued list only for real; leaves the tree unchanged |
| SuperReplace.Base.ReplaceContents | lib/super_replace.rb:135-172 | the reports and the new tree are those of the content pass over the filtered candidates |
| SuperReplace.Base.Run | lib/super_replace.rb:51-94 | with fewer than two arguments or no type, nothing changes; otherwise exactly the chosen pass runs, with `from` and `to` taken from the first two arguments; a dry run changes neither the tree nor the issued commands |

## Left out

- `Dir.glob` and its `**` semantics are not modelled. Glob results are the parameter `Glob`, so which paths a pattern lists (for example, only those whose last component contains `from`) is not modelled.
- The lemmas about the content pass that need each file visited once (`ForRealRewritesCandidates`, `ReportIgnoresForReal`) assume the glob lists each path at most once.
- Running `git mv` is modelled only as appending the command to `issued`. The model does not cover:
  - the rename in the working tree
  - the command's output
  - its failures, including the "bad source" error after a parent directory has already been renamed
- Regular expressions are not modelled. `String#match` and `Regexp.new` are the parameter `Matcher`. The bold highlighting of the first capture group in each reported line (lines 155-158) is display only and is left out.
- Ruby's backreference processing in the replacement string is not modelled. `ReplaceAll` assumes `to`, and `from` in the highlighted copy, contain no backslashes. The replacement `'\ '` used by the escape has no backreference.
- `Text.Lines` splits lines only on `"\n"`, the default separator of `IO#gets`. Other separators are not modelled.
- `OptionParser` is not modelled: option syntax, abbreviations of `--type` values, and the error on an invalid type. `Run` receives the parsed options.
- Nothing printed is modelled: the option dump, "From:"/"To:", section headers, inverse-video file names, the help text and the trailing blank line. The printed content is kept as data in the `Outcome`, `Rename` and `FileReport` values.
- SuperReplace.Base.Run: for the contents type, it has the same requirement as `ReplaceContents` below.
- SuperReplace.Base.ReplaceContents requires every candidate to be a file of the tree. A failed `File.read` or `File.open` (lines 145, 167) raises and ends the run; that path is not modelled. The file is read twice at lines 145 and 151, and both reads are taken to return the same text.
- Renaming.HighlightedIsCommand assumes the path, `from` and `to` contain no escape character, so the markers cannot be confused with text.
- Scanning.ForRealRewritesCandidates holds in the tool only when `from` compiles as a regular expression. `Matcher` is total, but in the tool a `from` such as `foo(` or `*.js` makes `text.match(@from)` at line 149 raise on the first candidate, and the run ends before any file is written at line 167.
- Scanning.UntouchedWhenAbsent: the same condition on `from`.
- SuperReplace.Base.ReplaceContents: the same condition on `from`. An invalid `from` ends the run with no file written.
- SuperReplace.Base.Run: for the contents type, the same condition on `from`.
- Scanning.ForRealRewritesCandidates holds in the tool only when every candidate's bytes are valid text in the default external encoding. File contents are `string` here, so no file stops the pass. In the tool, `File.read` (line 145) tags the bytes with that encoding, and `text.match(@from)` (line 149) raises on an invalid byte sequence, for example a Latin-1 file under UTF-8. The run then ends in the middle of the pass: for real, the earlier candidates are already rewritten at line 167 and the later ones are not.
- Scanning.ReportedFiles: the same condition on the candidates' bytes. In the tool, a dry-run report stops at the first invalid file.
- SuperReplace.Base.ReplaceContents: the same condition on the candidates' bytes.
- SuperReplace.Base.Run: for the contents type, the same condition on the candidates' bytes.
