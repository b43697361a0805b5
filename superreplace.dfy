/** `SuperReplace::Base` of lib/super_replace.rb: the options, the dispatch
    of `run`, and the two passes `replace_paths` and `replace_contents` as
    methods that update the working tree (a map from path to contents) and
    the list of `git mv` commands issued. */
module SuperReplace {
  import opened Text
  import opened Candidates
  import opened Renaming
  import opened Scanning

  /** The `--type` option; `Unset` is Ruby's nil. */
  datatype PassType = Unset | Paths | Contents

  /** `@options` after parsing: `--for-real` and `--type`. */
  datatype Options = Options(forReal: bool, passType: PassType)

  /** What a run printed, apart from the option dump. */
  datatype Outcome =
    | Usage                                 // fewer than two positional arguments
    | NoTypeSpecified                       // "No type specified." and the help text
    | Renamed(plan: seq<Rename>)            // one line per planned `git mv`
    | Searched(reports: seq<FileReport>)    // one section per matching file

  const ExtensionsToReplaceInside: seq<string> := ["php", "ctp", "css", "js", "jst"]

  const RenameIgnorePaths: seq<string> := ["config/migrations/**/*", "plugins/**/*", "tmp/**/*"]

  const ReplaceInsideIgnorePaths: seq<string> :=
    ["config/migrations/**/*", "webroot/cache_css/**/*", "webroot/cache_js/**/*", "plugins/**/*", "tmp/**/*"]

  /** Ruby's `Array#join(sep)`. */
  function Join(parts: seq<string>, sep: string): string
  {
    if parts == [] then [] else if |parts| == 1 then parts[0] else parts[0] + sep + Join(parts[1..], sep)
  }

  /** The glob of the rename pass: every path whose name contains `from`. */
  function RenameGlob(from: string): string
  {
    "**/*" + from + "*"
  }

  /** The glob of the content pass: every file with one of the extensions. */
  function ContentsGlob(): string
  {
    "**/*.{" + Join(ExtensionsToReplaceInside, ",") + "}"
  }

  /** The extension list joined into one brace pattern. */
  lemma ContentsGlobPattern()
    ensures ContentsGlob() == "**/*.{php,ctp,css,js,jst}"
  {
    assert Join(ExtensionsToReplaceInside[4..], ",") == "jst";
    assert Join(ExtensionsToReplaceInside[3..], ",") == "js,jst";
    assert Join(ExtensionsToReplaceInside[2..], ",") == "css,js,jst";
    assert Join(ExtensionsToReplaceInside[1..], ",") == "ctp,css,js,jst";
  }

  /** The paths the rename pass works through. */
  function RenameCandidates(from: string, glob: Glob): seq<string>
  {
    Subtract(glob(RenameGlob(from)), Ignored(RenameIgnorePaths, glob))
  }

  /** The files the content pass works through. */
  function ContentsCandidates(glob: Glob): seq<string>
  {
    Subtract(glob(ContentsGlob()), Ignored(ReplaceInsideIgnorePaths, glob))
  }

  class Base {
    var options: Options
    var from: string
    var to: string
    /** The working tree: path to file contents. */
    var files: map<string, string>
    /** The `git mv` commands run so far, in order. */
    var issued: seq<string>

    constructor (tree: map<string, string>)
      ensures options == Options(false, Unset) && from == [] && to == []
      ensures files == tree && issued == []
    {
      options := Options(false, Unset);
      from := [];
      to := [];
      files := tree;
      issued := [];
    }

    /** `replace_paths`: plan a rename for every candidate path, and run its
        command only for real. */
    method ReplacePaths(glob: Glob) returns (plan: seq<Rename>)
      modifies this`issued
      ensures plan == RenamePlan(RenameCandidates(from, glob), from, to)
      ensures issued == old(issued) + (if options.forReal then Commands(plan) else [])
    {
      var filesToRename := glob(RenameGlob(from));
      filesToRename := FilterCandidates(filesToRename, RenameIgnorePaths, glob);
      var forReal := options.forReal;
      plan := [];
      for i := 0 to |filesToRename|
        invariant plan == RenamePlan(filesToRename[..i], from, to)
        invariant issued == old(issued) + (if forReal then Commands(plan) else [])
      {
        var before := filesToRename[i];
        before := EscapeSpaces(before);
        var beforeHighlighted := ReplaceAll(before, from, Bold(from));
        var after := ReplaceAll(before, from, to);
        var afterHighlighted := ReplaceAll(before, from, Bold(to));
        var cmd := MoveCommand(before, after);
        var cmdHighlighted := MoveCommand(beforeHighlighted, afterHighlighted);
        assert Rename(before, after, cmd, cmdHighlighted) == PlanFor(filesToRename[i], from, to);
        PlanAppend(filesToRename[..i], filesToRename[i], from, to);
        CommandsAppend(plan, Rename(before, after, cmd, cmdHighlighted));
        assert filesToRename[..i + 1] == filesToRename[..i] + [filesToRename[i]];
        plan := plan + [Rename(before, after, cmd, cmdHighlighted)];
        if forReal {
          issued := issued + [cmd];
        }
      }
      assert filesToRename[..|filesToRename|] == filesToRename;
    }

    /** `replace_contents`: report every candidate file whose text matches,
        line by line, and for real overwrite every candidate file with the
        literal replace-all of its text. */
    method ReplaceContents(glob: Glob, matches: Matcher) returns (reports: seq<FileReport>)
      requires AllPresent(files, ContentsCandidates(glob))
      modifies this`files
      ensures var r := ContentsPass(old(files), ContentsCandidates(glob), from, to, options.forReal, matches);
              reports == r.reports && files == r.files
    {
      var filesToSearch := glob(ContentsGlob());
      filesToSearch := FilterCandidates(filesToSearch, ReplaceInsideIgnorePaths, glob);
      var forReal, tree := options.forReal, files;
      ghost var final := ContentsPass(tree, filesToSearch, from, to, forReal, matches);
      reports := [];
      assert filesToSearch[0..] == filesToSearch;
      assert [] + final.reports == final.reports;
      for i := 0 to |filesToSearch|
        invariant tree.Keys == old(files).Keys
        invariant AllPresent(tree, filesToSearch[i..])
        invariant var rest := ContentsPass(tree, filesToSearch[i..], from, to, forReal, matches);
                  reports + rest.reports == final.reports && rest.files == final.files
      {
        var filename := filesToSearch[i];
        ghost var step := ScanFile(tree, filename, from, to, forReal, matches);
        ghost var reportsBefore := reports;
        PassAdvance(tree, filesToSearch, i, from, to, forReal, matches, reports, final);
        var text := tree[filename];
        if matches(from, text) {
          var hits := ScanLines(text, from, matches);
          reports := reports + [FileReport(filename, hits)];
        }
        if forReal {
          text := ReplaceAll(text, from, to);
          tree := tree[filename := text];
        }
        assert reports == reportsBefore + step.reports && tree == step.files;
      }
      files := tree;
    }

    /** `run`: take the options and the positional arguments, and run at
        most one pass. */
    method Run(opts: Options, args: seq<string>, glob: Glob, matches: Matcher) returns (outcome: Outcome)
      requires |args| >= 2 && opts.passType == Contents ==> AllPresent(files, ContentsCandidates(glob))
      modifies this
      ensures options == opts
      ensures |args| < 2 ==> outcome == Usage && from == old(from) && to == old(to)
      ensures |args| >= 2 ==> from == args[0] && to == args[1]
      ensures (|args| < 2 || opts.passType == Unset) ==> files == old(files) && issued == old(issued)
      ensures |args| >= 2 && opts.passType == Unset ==> outcome == NoTypeSpecified
      ensures |args| >= 2 && opts.passType == Paths ==>
                outcome == Renamed(RenamePlan(RenameCandidates(args[0], glob), args[0], args[1])) &&
                files == old(files) &&
                issued == old(issued) + (if opts.forReal then Commands(outcome.plan) else [])
      ensures |args| >= 2 && opts.passType == Contents ==>
                var r := ContentsPass(old(files), ContentsCandidates(glob), args[0], args[1], opts.forReal, matches);
                outcome == Searched(r.reports) && files == r.files && issued == old(issued)
      ensures !opts.forReal ==> files == old(files) && issued == old(issued)
    {
      options := opts;
      if |args| < 2 {
        return Usage;
      }
      from := args[0];
      to := args[1];
      if options.passType == Paths {
        var plan := ReplacePaths(glob);
        outcome := Renamed(plan);
      } else if options.passType == Contents {
        var reports := ReplaceContents(glob, matches);
        outcome := Searched(reports);
        if !opts.forReal {
          DryRunWritesNothing(old(files), ContentsCandidates(glob), from, to, matches);
        }
      } else {
        outcome := NoTypeSpecified;
      }
    }
  }

  /** The rename plan skips every path that an ignore glob lists: each
      planned source is, unescaped, a globbed path that no ignore pattern
      resolves to, and every such path has a plan. */
  lemma RenamePlanSkipsIgnored(from: string, to: string, glob: Glob)
    ensures var plan := RenamePlan(RenameCandidates(from, glob), from, to);
            forall k :: 0 <= k < |plan| ==>
              var p := UnescapeSpaces(plan[k].before);
              p in glob(RenameGlob(from)) &&
              forall i :: 0 <= i < |RenameIgnorePaths| ==> p !in glob(RenameIgnorePaths[i])
    ensures var plan := RenamePlan(RenameCandidates(from, glob), from, to);
            forall x :: x in glob(RenameGlob(from)) &&
                        (forall i :: 0 <= i < |RenameIgnorePaths| ==> x !in glob(RenameIgnorePaths[i])) ==>
              exists k :: 0 <= k < |plan| && plan[k].before == EscapeSpaces(x)
  {
    var kept := RenameCandidates(from, glob);
    FilterKeeps(glob(RenameGlob(from)), RenameIgnorePaths, glob);
    var plan := RenamePlan(kept, from, to);
    forall k | 0 <= k < |plan|
      ensures var p := UnescapeSpaces(plan[k].before);
              p in glob(RenameGlob(from)) &&
              forall i :: 0 <= i < |RenameIgnorePaths| ==> p !in glob(RenameIgnorePaths[i])
    {
      SourceIsEscapedPath(kept[k], from, to);
      assert kept[k] in kept;
    }
    forall x | x in glob(RenameGlob(from)) &&
               (forall i :: 0 <= i < |RenameIgnorePaths| ==> x !in glob(RenameIgnorePaths[i]))
      ensures exists k :: 0 <= k < |plan| && plan[k].before == EscapeSpaces(x)
    {
      var k :| 0 <= k < |kept| && kept[k] == x;
      assert plan[k].before == EscapeSpaces(x);
    }
  }

  /** A file that an ignore glob lists is neither reported nor written, for
      real or not. */
  lemma IgnoredFileUntouched(files: map<string, string>, glob: Glob, from: string, to: string, forReal: bool,
                             matches: Matcher, p: string, i: nat)
    requires AllPresent(files, ContentsCandidates(glob))
    requires p in files && i < |ReplaceInsideIgnorePaths| && p in glob(ReplaceInsideIgnorePaths[i])
    ensures var r := ContentsPass(files, ContentsCandidates(glob), from, to, forReal, matches);
            r.files[p] == files[p] && forall k :: 0 <= k < |r.reports| ==> r.reports[k].path != p
  {
    FilterKeeps(glob(ContentsGlob()), ReplaceInsideIgnorePaths, glob);
    NonCandidateUntouched(files, ContentsCandidates(glob), from, to, forReal, matches, p);
  }
}
