/** The per-path computation of `replace_paths` in lib/super_replace.rb:
    escape the path, substitute `from` by `to`, and build the `git mv`
    command together with its bold-highlighted display copy. */
module Renaming {
  import opened Text

  /** One planned rename: the escaped source, the destination, the command
      that is run, and the copy of it that is printed. */
  datatype Rename = Rename(before: string, after: string, cmd: string, cmdHighlighted: string)

  const GitMv: string := "git mv "

  /** `"git mv #{before} #{after}"` */
  function MoveCommand(before: string, after: string): string
  {
    GitMv + before + " " + after
  }

  /** The rename planned for one globbed path. Both `from` and `to` are
      used literally (`String#gsub` with a String pattern). */
  function PlanFor(path: string, from: string, to: string): Rename
  {
    var before := EscapeSpaces(path);
    var beforeHighlighted := ReplaceAll(before, from, Bold(from));
    var after := ReplaceAll(before, from, to);
    var afterHighlighted := ReplaceAll(before, from, Bold(to));
    Rename(before, after, MoveCommand(before, after), MoveCommand(beforeHighlighted, afterHighlighted))
  }

  /** The plan for a list of paths, in their order: one rename per path,
      whose source gives that path back once its escapes are taken out. */
  function RenamePlan(paths: seq<string>, from: string, to: string): (plan: seq<Rename>)
    ensures |plan| == |paths|
    ensures forall i :: 0 <= i < |paths| ==> UnescapeSpaces(plan[i].before) == paths[i]
  {
    assert forall i :: 0 <= i < |paths| ==> UnescapeSpaces(PlanFor(paths[i], from, to).before) == paths[i] by {
      forall i | 0 <= i < |paths| {
        SourceIsEscapedPath(paths[i], from, to);
      }
    }
    seq(|paths|, i requires 0 <= i < |paths| => PlanFor(paths[i], from, to))
  }

  /** The commands of a plan, in order. */
  function Commands(plan: seq<Rename>): seq<string>
  {
    seq(|plan|, i requires 0 <= i < |plan| => plan[i].cmd)
  }

  lemma PlanAppend(paths: seq<string>, path: string, from: string, to: string)
    ensures RenamePlan(paths + [path], from, to) == RenamePlan(paths, from, to) + [PlanFor(path, from, to)]
  {
  }

  lemma CommandsAppend(plan: seq<Rename>, r: Rename)
    ensures Commands(plan + [r]) == Commands(plan) + [r.cmd]
  {
  }

  /** The source of the command is the path with its spaces escaped: taking
      the escapes out again gives the globbed path, and every space in it is
      behind a backslash. */
  lemma SourceIsEscapedPath(path: string, from: string, to: string)
    ensures UnescapeSpaces(PlanFor(path, from, to).before) == path
    ensures var b := PlanFor(path, from, to).before;
            forall i :: 0 <= i < |b| && b[i] == Space ==> 0 < i && b[i - 1] == Backslash
  {
    UnescapeEscape(path);
    EscapedSpacesHaveBackslash(path);
  }

  /** A `from` that does not occur in the escaped source leaves the
      destination equal to the source. */
  lemma AbsentFromKeepsPath(path: string, from: string, to: string)
    requires !Occurs(from, EscapeSpaces(path))
    ensures PlanFor(path, from, to).after == PlanFor(path, from, to).before
  {
    ReplaceAbsent(EscapeSpaces(path), from, to);
  }

  /** Renaming `from` to itself keeps every path. */
  lemma SameNameKeepsPath(path: string, from: string)
    ensures PlanFor(path, from, from).after == PlanFor(path, from, from).before
  {
    ReplaceBySelf(EscapeSpaces(path), from);
  }

  /** The emphasis is for display only: with the bold markers removed, the
      printed command is the command that is run, provided the path, `from`
      and `to` hold no escape character. */
  lemma HighlightedIsCommand(path: string, from: string, to: string)
    requires NoEsc(path) && NoEsc(from) && NoEsc(to)
    ensures var r := PlanFor(path, from, to);
            Unbold(r.cmdHighlighted) == r.cmd && r.cmd == GitMv + r.before + " " + r.after
  {
    var before := EscapeSpaces(path);
    EscapeKeepsNoEsc(path);
    var bh := ReplaceAll(before, from, Bold(from));
    var ah := ReplaceAll(before, from, Bold(to));
    var after := ReplaceAll(before, from, to);
    assert NoEsc(GitMv);
    assert NoEsc(" ");
    calc {
      Unbold(MoveCommand(bh, ah));
      { assert MoveCommand(bh, ah) == GitMv + (bh + (" " + ah)); }
      Unbold(GitMv + (bh + (" " + ah)));
      { UnboldPlain(GitMv, bh + (" " + ah)); }
      GitMv + Unbold(bh + (" " + ah));
      { UnboldReplace(before, from, from, " " + ah); ReplaceBySelf(before, from); }
      GitMv + (before + Unbold(" " + ah));
      { UnboldPlain(" ", ah); }
      GitMv + (before + (" " + Unbold(ah)));
      { UnboldReplace(before, from, to, []); assert ah + [] == ah; assert after + [] == after; }
      GitMv + (before + (" " + after));
      MoveCommand(before, after);
    }
  }

  /** A `from` holding a space that does not follow a backslash can no
      longer match once the path has been escaped, since there every space
      follows a backslash: such a `from` renames nothing. The path "a b.txt",
      which the rename glob lists for `from` "a b", keeps its name. */
  lemma SpacedFromIsNotRenamed(path: string, from: string, to: string, j: nat)
    requires 0 < j < |from| && from[j] == Space && from[j - 1] != Backslash
    ensures PlanFor(path, from, to).after == PlanFor(path, from, to).before
  {
    var b := EscapeSpaces(path);
    EscapedSpacesHaveBackslash(path);
    forall i: nat | i <= |b| ensures !IsAt(b, from, i) {
      if i + |from| <= |b| {
        var w := b[i..i + |from|];
        assert w[j] == b[i + j] && w[j - 1] == b[i + j - 1];
        assert w[j] != from[j] || w[j - 1] != from[j - 1];
      }
    }
    ReplaceAbsent(b, from, to);
  }
}
