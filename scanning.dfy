/** The content pass of lib/super_replace.rb (`replace_contents`): the
    line-numbered report of the lines that match `from` as a regular
    expression, and the rewrite of each candidate file with the literal
    replace-all of `from` by `to`. */
module Scanning {
  import opened Text
  import opened Candidates

  /** `matches(pattern, text)`: Ruby's `text.match(pattern)` succeeds, with the
      String `pattern` compiled as a regular expression. Regular-expression
      semantics are not part of this model. */
  type Matcher = (string, string) -> bool

  /** One reported line: its 1-based number and its text. */
  datatype Hit = Hit(lineNum: nat, line: string)

  /** The section printed for one file whose text matches. */
  datatype FileReport = FileReport(path: string, hits: seq<Hit>)

  /** The hits among `lines`, the first of which has number `n`. */
  function Preview(lines: seq<string>, from: string, matches: Matcher, n: nat): seq<Hit>
  {
    if lines == [] then []
    else (if matches(from, lines[0]) then [Hit(n, lines[0])] else []) + Preview(lines[1..], from, matches, n + 1)
  }

  /** Every hit is a matching line, numbered from `n` by its position. */
  predicate HitsAreMatchingLines(h: seq<Hit>, lines: seq<string>, from: string, matches: Matcher, n: nat)
  {
    forall k :: 0 <= k < |h| ==>
      n <= h[k].lineNum < n + |lines| && h[k].line == lines[h[k].lineNum - n] && matches(from, h[k].line)
  }

  /** Line numbers strictly ascend, so no line is listed twice. */
  predicate Ascending(h: seq<Hit>)
  {
    forall k, l :: 0 <= k < l < |h| ==> h[k].lineNum < h[l].lineNum
  }

  /** Every matching line is listed. */
  predicate ListsEveryMatch(h: seq<Hit>, lines: seq<string>, from: string, matches: Matcher, n: nat)
  {
    forall j :: 0 <= j < |lines| && matches(from, lines[j]) ==>
      exists k :: 0 <= k < |h| && h[k].lineNum == n + j
  }

  lemma {:induction false} PreviewSound(lines: seq<string>, from: string, matches: Matcher, n: nat)
    ensures HitsAreMatchingLines(Preview(lines, from, matches, n), lines, from, matches, n)
  {
    if lines != [] {
      var tail := Preview(lines[1..], from, matches, n + 1);
      PreviewSound(lines[1..], from, matches, n + 1);
      var head := if matches(from, lines[0]) then [Hit(n, lines[0])] else [];
      var h := head + tail;
      assert h == Preview(lines, from, matches, n);
      forall k | 0 <= k < |h|
        ensures n <= h[k].lineNum < n + |lines| && h[k].line == lines[h[k].lineNum - n] && matches(from, h[k].line)
      {
        if k >= |head| {
          var k' := k - |head|;
          assert h[k] == tail[k'];
          assert tail[k'].line == lines[1..][tail[k'].lineNum - (n + 1)];
        }
      }
    }
  }

  lemma {:induction false} PreviewAscending(lines: seq<string>, from: string, matches: Matcher, n: nat)
    ensures Ascending(Preview(lines, from, matches, n))
  {
    if lines != [] {
      var tail := Preview(lines[1..], from, matches, n + 1);
      PreviewAscending(lines[1..], from, matches, n + 1);
      PreviewSound(lines[1..], from, matches, n + 1);
      var head := if matches(from, lines[0]) then [Hit(n, lines[0])] else [];
      var h := head + tail;
      assert h == Preview(lines, from, matches, n);
      forall k, l | 0 <= k < l < |h| ensures h[k].lineNum < h[l].lineNum {
        if k >= |head| {
          assert h[k] == tail[k - |head|] && h[l] == tail[l - |head|];
        } else {
          assert h[l] == tail[l - |head|];
        }
      }
    }
  }

  lemma {:induction false} PreviewComplete(lines: seq<string>, from: string, matches: Matcher, n: nat)
    ensures ListsEveryMatch(Preview(lines, from, matches, n), lines, from, matches, n)
  {
    if lines != [] {
      var tail := Preview(lines[1..], from, matches, n + 1);
      PreviewComplete(lines[1..], from, matches, n + 1);
      var head := if matches(from, lines[0]) then [Hit(n, lines[0])] else [];
      var h := head + tail;
      assert h == Preview(lines, from, matches, n);
      forall j | 0 <= j < |lines| && matches(from, lines[j])
        ensures exists k :: 0 <= k < |h| && h[k].lineNum == n + j
      {
        if j == 0 {
          assert h[0].lineNum == n;
        } else {
          assert lines[1..][j - 1] == lines[j];
          var k :| 0 <= k < |tail| && tail[k].lineNum == n + 1 + (j - 1);
          assert h[k + |head|] == tail[k];
        }
      }
    }
  }

  /** The preview lists each matching line once, with its number counted
      from `n`, in strictly ascending order, and nothing else. */
  lemma PreviewExact(lines: seq<string>, from: string, matches: Matcher, n: nat)
    ensures var h := Preview(lines, from, matches, n);
            HitsAreMatchingLines(h, lines, from, matches, n) && Ascending(h) &&
            ListsEveryMatch(h, lines, from, matches, n)
  {
    PreviewSound(lines, from, matches, n);
    PreviewAscending(lines, from, matches, n);
    PreviewComplete(lines, from, matches, n);
  }

  /** The loop at lib/super_replace.rb:151-162: read the file line by line,
      counting from 1, and keep every line that matches `from`. */
  method ScanLines(text: string, from: string, matches: Matcher) returns (hits: seq<Hit>)
    ensures hits == Preview(Lines(text), from, matches, 1)
  {
    var unread := Lines(text);
    hits := [];
    var linenum := 1;
    while unread != []
      invariant hits + Preview(unread, from, matches, linenum) == Preview(Lines(text), from, matches, 1)
      decreases |unread|
    {
      var line := unread[0];
      unread := unread[1..];
      if matches(from, line) {
        hits := hits + [Hit(linenum, line)];
      }
      linenum := linenum + 1;
    }
  }

  /** What the content pass leaves behind: the printed reports and the
      file system afterwards. */
  datatype PassResult = PassResult(reports: seq<FileReport>, files: map<string, string>)

  /** Every candidate is a file of the tree. */
  predicate AllPresent(files: map<string, string>, paths: seq<string>)
  {
    forall i :: 0 <= i < |paths| ==> paths[i] in files
  }

  /** One iteration of the content pass, on the file `path`: report it when
      its text matches, then, for real, overwrite it with the literal
      replace-all. */
  function ScanFile(files: map<string, string>, path: string, from: string, to: string,
                    forReal: bool, matches: Matcher): (r: PassResult)
    requires path in files
    ensures r.files.Keys == files.Keys
  {
    var text := files[path];
    var report := if matches(from, text) then [FileReport(path, Preview(Lines(text), from, matches, 1))] else [];
    PassResult(report, if forReal then files[path := ReplaceAll(text, from, to)] else files)
  }

  /** The content pass over the candidate files, in order. */
  function ContentsPass(files: map<string, string>, paths: seq<string>, from: string, to: string,
                        forReal: bool, matches: Matcher): (r: PassResult)
    requires AllPresent(files, paths)
    ensures r.files.Keys == files.Keys
    decreases |paths|
  {
    if paths == [] then PassResult([], files)
    else
      var first := ScanFile(files, paths[0], from, to, forReal, matches);
      var rest := ContentsPass(first.files, paths[1..], from, to, forReal, matches);
      PassResult(first.reports + rest.reports, rest.files)
  }

  /** The pass is its first file's step followed by the pass over the rest. */
  lemma PassUnfold(files: map<string, string>, paths: seq<string>, from: string, to: string,
                   forReal: bool, matches: Matcher)
    requires AllPresent(files, paths) && paths != []
    ensures var first := ScanFile(files, paths[0], from, to, forReal, matches);
            var rest := ContentsPass(first.files, paths[1..], from, to, forReal, matches);
            ContentsPass(files, paths, from, to, forReal, matches) == PassResult(first.reports + rest.reports, rest.files)
  {
  }

  /** One iteration of the content pass moves its first unvisited file from
      what is left to what is done. */
  lemma PassAdvance(files: map<string, string>, paths: seq<string>, i: nat, from: string, to: string,
                    forReal: bool, matches: Matcher, done: seq<FileReport>, total: PassResult)
    requires i < |paths| && AllPresent(files, paths[i..])
    requires var rest := ContentsPass(files, paths[i..], from, to, forReal, matches);
             done + rest.reports == total.reports && rest.files == total.files
    ensures var step := ScanFile(files, paths[i], from, to, forReal, matches);
            AllPresent(step.files, paths[i + 1..]) &&
            var rest := ContentsPass(step.files, paths[i + 1..], from, to, forReal, matches);
            done + step.reports + rest.reports == total.reports && rest.files == total.files
  {
    PassUnfold(files, paths[i..], from, to, forReal, matches);
    assert paths[i..][1..] == paths[i + 1..];
    var step := ScanFile(files, paths[i], from, to, forReal, matches);
    var rest := ContentsPass(step.files, paths[i + 1..], from, to, forReal, matches);
    assert done + step.reports + rest.reports == done + (step.reports + rest.reports);
  }

  /** A dry run writes nothing. */
  lemma {:induction false} DryRunWritesNothing(files: map<string, string>, paths: seq<string>, from: string, to: string,
                                               matches: Matcher)
    requires AllPresent(files, paths)
    ensures ContentsPass(files, paths, from, to, false, matches).files == files
    decreases |paths|
  {
    if paths != [] {
      DryRunWritesNothing(files, paths[1..], from, to, matches);
    }
  }

  /** For real, every candidate (listed once) is overwritten with the
      literal replace-all of its original text, and every other file keeps
      its contents. */
  lemma {:induction false} ForRealRewritesCandidates(files: map<string, string>, paths: seq<string>, from: string,
                                                     to: string, matches: Matcher)
    requires AllPresent(files, paths) && Distinct(paths)
    ensures var out := ContentsPass(files, paths, from, to, true, matches).files;
            forall p :: p in files ==> out[p] == if p in paths then ReplaceAll(files[p], from, to) else files[p]
    decreases |paths|
  {
    if paths != [] {
      var first := ScanFile(files, paths[0], from, to, true, matches).files;
      assert Distinct(paths[1..]);
      ForRealRewritesCandidates(first, paths[1..], from, to, matches);
      assert paths[0] !in paths[1..];
      forall p | p in files ensures p in paths <==> p == paths[0] || p in paths[1..] {
        assert paths == [paths[0]] + paths[1..];
      }
    }
  }

  /** For real, a file in which `from` does not occur literally is written
      back unchanged, however often it is a candidate. */
  lemma {:induction false} UntouchedWhenAbsent(files: map<string, string>, paths: seq<string>, from: string, to: string,
                                               matches: Matcher, p: string)
    requires AllPresent(files, paths)
    requires p in files && !Occurs(from, files[p])
    ensures ContentsPass(files, paths, from, to, true, matches).files[p] == files[p]
    decreases |paths|
  {
    if paths != [] {
      var first := ScanFile(files, paths[0], from, to, true, matches).files;
      ReplaceAbsent(files[p], from, to);
      assert first[p] == files[p];
      UntouchedWhenAbsent(first, paths[1..], from, to, matches, p);
    }
  }

  /** A file that is not a candidate is neither reported nor written, for
      real or not. */
  lemma {:induction false} NonCandidateUntouched(files: map<string, string>, paths: seq<string>, from: string,
                                                 to: string, forReal: bool, matches: Matcher, p: string)
    requires AllPresent(files, paths) && p in files && p !in paths
    ensures var r := ContentsPass(files, paths, from, to, forReal, matches);
            r.files[p] == files[p] && forall k :: 0 <= k < |r.reports| ==> r.reports[k].path != p
    decreases |paths|
  {
    if paths != [] {
      var first := ScanFile(files, paths[0], from, to, forReal, matches);
      assert p != paths[0] && p !in paths[1..];
      NonCandidateUntouched(first.files, paths[1..], from, to, forReal, matches, p);
    }
  }

  /** The report describes the text before any rewrite: for candidates
      listed once it is the same for real as in a dry run. */
  lemma {:induction false} ReportIgnoresForReal(files: map<string, string>, paths: seq<string>, from: string,
                                                to: string, matches: Matcher)
    requires AllPresent(files, paths) && Distinct(paths)
    ensures ContentsPass(files, paths, from, to, true, matches).reports ==
            ContentsPass(files, paths, from, to, false, matches).reports
    decreases |paths|
  {
    if paths != [] {
      var wet := ScanFile(files, paths[0], from, to, true, matches).files;
      assert Distinct(paths[1..]);
      assert paths[0] !in paths[1..];
      ReportIgnoresForReal(wet, paths[1..], from, to, matches);
      forall i | 0 <= i < |paths[1..]| ensures files[paths[1..][i]] == wet[paths[1..][i]] {
        assert paths[1..][i] != paths[0];
      }
      ReportsOnlyReadCandidates(files, wet, paths[1..], from, to, matches);
    }
  }

  /** The dry-run report depends only on the files the candidates name. */
  lemma {:induction false} ReportsOnlyReadCandidates(f1: map<string, string>, f2: map<string, string>, paths: seq<string>,
                                                     from: string, to: string, matches: Matcher)
    requires AllPresent(f1, paths) && AllPresent(f2, paths)
    requires forall i :: 0 <= i < |paths| ==> f1[paths[i]] == f2[paths[i]]
    ensures ContentsPass(f1, paths, from, to, false, matches).reports ==
            ContentsPass(f2, paths, from, to, false, matches).reports
    decreases |paths|
  {
    if paths != [] {
      ReportsOnlyReadCandidates(f1, f2, paths[1..], from, to, matches);
    }
  }

  /** In a dry run a file gets a section exactly when it is a candidate
      whose whole text matches, and the section lists the hits of its
      line-numbered preview. */
  lemma {:induction false} ReportedFiles(files: map<string, string>, paths: seq<string>, from: string, to: string,
                                         matches: Matcher)
    requires AllPresent(files, paths)
    ensures var reps := ContentsPass(files, paths, from, to, false, matches).reports;
            (forall k :: 0 <= k < |reps| ==>
               reps[k].path in paths && matches(from, files[reps[k].path]) &&
               reps[k].hits == Preview(Lines(files[reps[k].path]), from, matches, 1)) &&
            (forall i :: 0 <= i < |paths| && matches(from, files[paths[i]]) ==>
               exists k :: 0 <= k < |reps| && reps[k].path == paths[i])
    decreases |paths|
  {
    if paths != [] {
      ReportedFiles(files, paths[1..], from, to, matches);
      var first := ScanFile(files, paths[0], from, to, false, matches);
      var rest := ContentsPass(files, paths[1..], from, to, false, matches).reports;
      var reps := first.reports + rest;
      assert reps == ContentsPass(files, paths, from, to, false, matches).reports;
      forall k | 0 <= k < |reps|
        ensures reps[k].path in paths && matches(from, files[reps[k].path]) &&
                reps[k].hits == Preview(Lines(files[reps[k].path]), from, matches, 1)
      {
        if k >= |first.reports| {
          var k' := k - |first.reports|;
          assert reps[k] == rest[k'];
          var j :| 0 <= j < |paths[1..]| && paths[1..][j] == rest[k'].path;
          assert paths[j + 1] == reps[k].path;
        }
      }
      forall i | 0 <= i < |paths| && matches(from, files[paths[i]])
        ensures exists k :: 0 <= k < |reps| && reps[k].path == paths[i]
      {
        if i == 0 {
          assert reps[0].path == paths[0];
        } else {
          assert paths[1..][i - 1] == paths[i];
          var k :| 0 <= k < |rest| && rest[k].path == paths[1..][i - 1];
          assert reps[k + |first.reports|] == rest[k];
        }
      }
    }
  }
}
