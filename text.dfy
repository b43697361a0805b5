/** String operations of lib/super_replace.rb: Ruby's `String#gsub` with a
    String pattern (a literal, left-to-right, non-overlapping replace-all),
    the space escaping of path names, the ANSI bold markers used for display,
    and the line splitting of `IO#gets`. */
module Text {

  /** `s[i..]` begins with `p`. */
  predicate IsAt(s: string, p: string, i: nat)
  {
    i + |p| <= |s| && s[i..i + |p|] == p
  }

  /** `p` occurs literally somewhere in `s`. */
  predicate Occurs(p: string, s: string)
  {
    exists i: nat :: i <= |s| && IsAt(s, p, i)
  }

  /** Ruby's `s.gsub(p, r)` for a String `p` and a replacement `r` without
      backslashes: scanning left to right, every occurrence of `p` that does
      not overlap an earlier replaced one becomes `r`. An empty `p` matches
      before every character and at the end ("ab".gsub("", "X") == "XaXbX"). */
  function ReplaceAll(s: string, p: string, r: string): string
    decreases |s|
  {
    if p == [] then
      if s == [] then r else r + [s[0]] + ReplaceAll(s[1..], p, r)
    else if s == [] then []
    else if p <= s then r + ReplaceAll(s[|p|..], p, r)
    else [s[0]] + ReplaceAll(s[1..], p, r)
  }

  lemma IsAtShift(s: string, p: string, i: nat)
    requires s != [] && IsAt(s[1..], p, i)
    ensures IsAt(s, p, i + 1)
  {
    assert s[i + 1..i + 1 + |p|] == s[1..][i..i + |p|];
  }

  /** The empty pattern occurs in every text, at its start. */
  lemma OccursEmpty(s: string)
    ensures Occurs([], s)
  {
    assert IsAt(s, [], 0);
  }

  /** A pattern that does not occur leaves the text as it was. Such a
      pattern is never empty, since the empty one occurs everywhere. */
  lemma {:induction false} ReplaceAbsent(s: string, p: string, r: string)
    requires !Occurs(p, s)
    ensures ReplaceAll(s, p, r) == s
    decreases |s|
  {
    OccursEmpty(s);
    if s != [] {
      assert !(p <= s) by { if p <= s { assert IsAt(s, p, 0); } }
      forall i: nat | i <= |s[1..]| ensures !IsAt(s[1..], p, i) {
        if IsAt(s[1..], p, i) { IsAtShift(s, p, i); }
      }
      ReplaceAbsent(s[1..], p, r);
    }
  }

  /** Replacing a pattern by itself changes nothing. */
  lemma {:induction false} ReplaceBySelf(s: string, p: string)
    ensures ReplaceAll(s, p, p) == s
    decreases |s|
  {
    if p == [] {
      if s != [] {
        ReplaceBySelf(s[1..], p);
        assert [s[0]] + s[1..] == s;
      }
    } else if s != [] {
      if p <= s {
        ReplaceBySelf(s[|p|..], p);
        assert p + s[|p|..] == s;
      } else {
        ReplaceBySelf(s[1..], p);
        assert [s[0]] + s[1..] == s;
      }
    }
  }

  /** Replacing a single character by text that does not contain it leaves
      no occurrence of that character. */
  lemma {:induction false} ReplaceCharRemovesIt(s: string, c: char, r: string)
    requires c !in r
    ensures c !in ReplaceAll(s, [c], r)
    decreases |s|
  {
    if s != [] {
      ReplaceCharRemovesIt(s[|[c]|..], c, r);
      ReplaceCharRemovesIt(s[1..], c, r);
    }
  }

  // ---------------------------------------------------------------------
  // Space escaping of path names

  const Space: char := ' '
  const Backslash: char := '\\'

  /** `before.gsub!(' ', '\ ')`: every space gets a backslash in front. */
  function EscapeSpaces(s: string): string
  {
    ReplaceAll(s, [Space], [Backslash, Space])
  }

  /** Deletes the backslash of every backslash-space pair, scanning left to
      right. */
  function UnescapeSpaces(s: string): string
    decreases |s|
  {
    if s == [] then []
    else if |s| >= 2 && s[0] == Backslash && s[1] == Space then [Space] + UnescapeSpaces(s[2..])
    else [s[0]] + UnescapeSpaces(s[1..])
  }

  lemma EscapeSpacesStep(s: string)
    requires s != []
    ensures EscapeSpaces(s) == (if s[0] == Space then [Backslash, Space] else [s[0]]) + EscapeSpaces(s[1..])
  {
    if s[0] == Space {
      assert [Space] <= s;
      assert s[|[Space]|..] == s[1..];
    }
  }

  /** A path without spaces is left as it is. */
  lemma {:induction false} EscapeWithoutSpaces(s: string)
    requires Space !in s
    ensures EscapeSpaces(s) == s
    decreases |s|
  {
    if s != [] {
      EscapeSpacesStep(s);
      EscapeWithoutSpaces(s[1..]);
      assert [s[0]] + s[1..] == s;
    }
  }

  /** An escaped path never starts with a bare space. */
  lemma EscapedHead(s: string)
    ensures EscapeSpaces(s) == [] || EscapeSpaces(s)[0] != Space
  {
    if s != [] { EscapeSpacesStep(s); }
  }

  /** Removing the inserted backslashes gives the original path back. */
  lemma {:induction false} UnescapeEscape(s: string)
    ensures UnescapeSpaces(EscapeSpaces(s)) == s
    decreases |s|
  {
    if s != [] {
      EscapeSpacesStep(s);
      var rest := EscapeSpaces(s[1..]);
      UnescapeEscape(s[1..]);
      if s[0] == Space {
        assert ([Backslash, Space] + rest)[2..] == rest;
      } else {
        EscapedHead(s[1..]);
        assert ([s[0]] + rest)[1..] == rest;
      }
      assert [s[0]] + s[1..] == s;
    }
  }

  /** In an escaped path every space is immediately preceded by a backslash. */
  lemma {:induction false} EscapedSpacesHaveBackslash(s: string)
    ensures forall i :: 0 <= i < |EscapeSpaces(s)| && EscapeSpaces(s)[i] == Space ==>
              0 < i && EscapeSpaces(s)[i - 1] == Backslash
    decreases |s|
  {
    if s != [] {
      EscapeSpacesStep(s);
      EscapedSpacesHaveBackslash(s[1..]);
      var head := if s[0] == Space then [Backslash, Space] else [s[0]];
      var e := EscapeSpaces(s);
      var rest := EscapeSpaces(s[1..]);
      EscapedHead(s[1..]);
      forall i | 0 <= i < |e| && e[i] == Space ensures 0 < i && e[i - 1] == Backslash {
        if i >= |head| {
          assert e[i] == rest[i - |head|];
        }
      }
    }
  }

  /** No escape character in `s`. */
  predicate NoEsc(s: string)
  {
    Esc !in s
  }

  /** Escaping adds only backslashes, so it adds no escape character. */
  lemma EscapeKeepsNoEsc(s: string)
    requires NoEsc(s)
    ensures NoEsc(EscapeSpaces(s))
  {
    ReplaceCharsFrom(s, [Space], [Backslash, Space]);
  }

  /** Every character of a replace-all result comes from the text or from
      the replacement. */
  lemma {:induction false} ReplaceCharsFrom(s: string, p: string, r: string)
    ensures forall c :: c in ReplaceAll(s, p, r) ==> c in s || c in r
    decreases |s|
  {
    if s != [] {
      if p != [] && p <= s {
        ReplaceCharsFrom(s[|p|..], p, r);
        assert forall c :: c in s[|p|..] ==> c in s;
      } else {
        ReplaceCharsFrom(s[1..], p, r);
        assert forall c :: c in s[1..] ==> c in s;
      }
    }
  }

  // ---------------------------------------------------------------------
  // ANSI display markers

  const Esc: char := '\U{1B}'
  /** BOLDSTART, "\e[1m" */
  const BoldStart: string := [Esc, '[', '1', 'm']
  /** BOLDEND, "\e[0m" (the same string as INVERTEND) */
  const BoldEnd: string := [Esc, '[', '0', 'm']

  function Bold(s: string): string
  {
    BoldStart + s + BoldEnd
  }

  /** Removes every bold marker, scanning left to right: what a terminal
      shows of a highlighted line, as plain characters. */
  function Unbold(s: string): string
    decreases |s|
  {
    if s == [] then []
    else if BoldStart <= s then Unbold(s[|BoldStart|..])
    else if BoldEnd <= s then Unbold(s[|BoldEnd|..])
    else [s[0]] + Unbold(s[1..])
  }

  /** A character other than the escape character is kept by Unbold. */
  lemma UnboldCons(c: char, y: string)
    requires c != Esc
    ensures Unbold([c] + y) == [c] + Unbold(y)
  {
    var s := [c] + y;
    assert s[0] == c;
    assert s[1..] == y;
    assert !(BoldStart <= s) by { assert BoldStart[0] == Esc; }
    assert !(BoldEnd <= s) by { assert BoldEnd[0] == Esc; }
  }

  /** Text without escape characters passes through Unbold unchanged. */
  lemma {:induction false} UnboldPlain(x: string, y: string)
    requires NoEsc(x)
    ensures Unbold(x + y) == x + Unbold(y)
    decreases |x|
  {
    if x == [] {
      assert x + y == y;
    } else {
      assert x + y == [x[0]] + (x[1..] + y);
      assert x[0] in x;
      UnboldCons(x[0], x[1..] + y);
      assert NoEsc(x[1..]) by { assert forall c :: c in x[1..] ==> c in x; }
      UnboldPlain(x[1..], y);
      assert [x[0]] + (x[1..] + Unbold(y)) == x + Unbold(y);
    }
  }

  lemma UnboldMarker(m: string, y: string)
    requires m == BoldStart || m == BoldEnd
    ensures Unbold(m + y) == Unbold(y)
  {
    var s := m + y;
    assert s[|m|..] == y;
    if m == BoldEnd {
      assert s[2] == '0' != BoldStart[2];
    }
  }

  /** How much of `s` the first step of a replace-all consumes. */
  function StepLength(s: string, p: string): nat
    requires s != []
  {
    if p != [] && p <= s then |p| else 1
  }

  /** The first step of a replace-all: `r` in place of a leading match, else
      the first character kept (after `r` when `p` is empty). */
  lemma ReplaceAllStep(s: string, p: string, r: string)
    requires s != []
    ensures StepLength(s, p) <= |s|
    ensures ReplaceAll(s, p, r) ==
            (if p == [] then r + [s[0]] else if p <= s then r else [s[0]]) + ReplaceAll(s[StepLength(s, p)..], p, r)
  {
  }

  /** A suffix of text without escape characters has none either. */
  lemma NoEscSuffix(s: string, k: nat)
    requires NoEsc(s) && k <= |s|
    ensures NoEsc(s[k..])
  {
    assert forall c :: c in s[k..] ==> c in s;
  }

  /** Highlighting every replacement in bold and then removing the markers
      gives the plain replacement, whatever follows it. */
  lemma {:induction false} UnboldReplace(s: string, p: string, t: string, rest: string)
    requires NoEsc(s) && NoEsc(t)
    ensures Unbold(ReplaceAll(s, p, Bold(t)) + rest) == ReplaceAll(s, p, t) + Unbold(rest)
    decreases |s|
  {
    if s == [] {
      if p == [] {
        UnboldBold(t, rest);
      } else {
        assert ReplaceAll(s, p, Bold(t)) + rest == rest;
      }
    } else {
      var k := StepLength(s, p);
      NoEscSuffix(s, k);
      UnboldReplace(s[k..], p, t, rest);
      assert s[0] in s;
      UnboldReplaceStep(s, p, t, rest);
    }
  }

  /** The inductive step of UnboldReplace, for the first step of the
      replace-all. */
  lemma UnboldReplaceStep(s: string, p: string, t: string, rest: string)
    requires s != [] && s[0] != Esc && NoEsc(t)
    requires var k := StepLength(s, p);
             Unbold(ReplaceAll(s[k..], p, Bold(t)) + rest) == ReplaceAll(s[k..], p, t) + Unbold(rest)
    ensures Unbold(ReplaceAll(s, p, Bold(t)) + rest) == ReplaceAll(s, p, t) + Unbold(rest)
  {
    if p == [] {
      UnboldStepEmpty(s, t, rest);
    } else if p <= s {
      UnboldStepMatch(s, p, t, rest);
    } else {
      UnboldStepSkip(s, p, t, rest);
    }
  }

  lemma UnboldStepEmpty(s: string, t: string, rest: string)
    requires s != [] && s[0] != Esc && NoEsc(t)
    requires Unbold(ReplaceAll(s[1..], [], Bold(t)) + rest) == ReplaceAll(s[1..], [], t) + Unbold(rest)
    ensures Unbold(ReplaceAll(s, [], Bold(t)) + rest) == ReplaceAll(s, [], t) + Unbold(rest)
  {
    var b, c := Bold(t), [s[0]];
    var x, y := ReplaceAll(s[1..], [], b), ReplaceAll(s[1..], [], t);
    assert NoEsc(c);
    UnboldPlainThen(c, x, y, rest);
    UnboldBoldThen(t, c + x, c + y, rest);
    ReplaceEmptyStep(s, b);
    ReplaceEmptyStep(s, t);
  }

  /** The first step of a replace-all with the empty pattern. */
  lemma ReplaceEmptyStep(s: string, r: string)
    requires s != []
    ensures ReplaceAll(s, [], r) == r + ([s[0]] + ReplaceAll(s[1..], [], r))
  {
  }

  lemma UnboldStepMatch(s: string, p: string, t: string, rest: string)
    requires p != [] && p <= s && NoEsc(t)
    requires Unbold(ReplaceAll(s[|p|..], p, Bold(t)) + rest) == ReplaceAll(s[|p|..], p, t) + Unbold(rest)
    ensures Unbold(ReplaceAll(s, p, Bold(t)) + rest) == ReplaceAll(s, p, t) + Unbold(rest)
  {
    var b := Bold(t);
    var x, y := ReplaceAll(s[|p|..], p, b), ReplaceAll(s[|p|..], p, t);
    assert ReplaceAll(s, p, b) == b + x;
    assert ReplaceAll(s, p, t) == t + y;
    UnboldBoldThen(t, x, y, rest);
  }

  lemma UnboldStepSkip(s: string, p: string, t: string, rest: string)
    requires p != [] && s != [] && !(p <= s) && s[0] != Esc
    requires Unbold(ReplaceAll(s[1..], p, Bold(t)) + rest) == ReplaceAll(s[1..], p, t) + Unbold(rest)
    ensures Unbold(ReplaceAll(s, p, Bold(t)) + rest) == ReplaceAll(s, p, t) + Unbold(rest)
  {
    var b := Bold(t);
    var x, y := ReplaceAll(s[1..], p, b), ReplaceAll(s[1..], p, t);
    assert ReplaceAll(s, p, b) == [s[0]] + x;
    assert ReplaceAll(s, p, t) == [s[0]] + y;
    assert NoEsc([s[0]]);
    UnboldPlainThen([s[0]], x, y, rest);
  }

  lemma UnboldBoldThen(t: string, x: string, y: string, rest: string)
    requires NoEsc(t) && Unbold(x + rest) == y + Unbold(rest)
    ensures Unbold(Bold(t) + x + rest) == t + y + Unbold(rest)
  {
    assert Bold(t) + x + rest == Bold(t) + (x + rest);
    UnboldBold(t, x + rest);
  }

  lemma UnboldPlainThen(c: string, x: string, y: string, rest: string)
    requires NoEsc(c) && Unbold(x + rest) == y + Unbold(rest)
    ensures Unbold(c + x + rest) == c + y + Unbold(rest)
  {
    assert c + x + rest == c + (x + rest);
    UnboldPlain(c, x + rest);
  }

  /** One bold span loses its markers. */
  lemma UnboldBold(t: string, y: string)
    requires NoEsc(t)
    ensures Unbold(Bold(t) + y) == t + Unbold(y)
  {
    assert Bold(t) + y == BoldStart + (t + (BoldEnd + y));
    UnboldMarker(BoldStart, t + (BoldEnd + y));
    UnboldPlain(t, BoldEnd + y);
    UnboldMarker(BoldEnd, y);
  }

  // ---------------------------------------------------------------------
  // Lines as `IO#gets` returns them

  const Newline: char := '\n'

  /** Length of the first line of a non-empty text, its newline included. */
  function LineLength(text: string): (n: nat)
    requires text != []
    ensures 1 <= n <= |text|
    decreases |text|
  {
    if text[0] == Newline || |text| == 1 then 1 else 1 + LineLength(text[1..])
  }

  /** The first line ends at the first newline, or with the text. */
  lemma {:induction false} LineLengthEndsLine(text: string)
    requires text != []
    ensures forall i :: 0 <= i < LineLength(text) - 1 ==> text[i] != Newline
    ensures LineLength(text) < |text| ==> text[LineLength(text) - 1] == Newline
    decreases |text|
  {
    if !(text[0] == Newline || |text| == 1) {
      LineLengthEndsLine(text[1..]);
      forall i | 0 < i < LineLength(text) - 1 ensures text[i] != Newline {
        assert text[i] == text[1..][i - 1];
      }
    }
  }

  /** The successive results of `file.gets` on a file holding `text`: each
      line keeps its terminating newline; only the last may lack one. */
  function Lines(text: string): seq<string>
    decreases |text|
  {
    if text == [] then []
    else
      var n := LineLength(text);
      [text[..n]] + Lines(text[n..])
  }

  function Concat(lines: seq<string>): string
  {
    if lines == [] then [] else lines[0] + Concat(lines[1..])
  }

  /** Reading a file line by line loses and adds nothing: the lines put back
      together are the text. */
  lemma {:induction false} LinesConcat(text: string)
    ensures Concat(Lines(text)) == text
    decreases |text|
  {
    if text != [] {
      var n := LineLength(text);
      var tail := Lines(text[n..]);
      assert Lines(text) == [text[..n]] + tail;
      LinesConcat(text[n..]);
      calc {
        Concat(Lines(text));
        text[..n] + Concat(Lines(text)[1..]);
        { assert Lines(text)[1..] == tail; }
        text[..n] + Concat(tail);
        text[..n] + text[n..];
        { assert text[..n] + text[n..] == text; }
        text;
      }
    }
  }

  /** Every line is non-empty, holds no newline before its end, and all but
      the last end with a newline. */
  lemma {:induction false} LinesShape(text: string)
    ensures forall k :: 0 <= k < |Lines(text)| ==> Lines(text)[k] != []
    ensures forall k, i :: 0 <= k < |Lines(text)| && 0 <= i < |Lines(text)[k]| - 1 ==>
              Lines(text)[k][i] != Newline
    ensures forall k :: 0 <= k < |Lines(text)| - 1 ==>
              Lines(text)[k][|Lines(text)[k]| - 1] == Newline
    decreases |text|
  {
    if text != [] {
      var n := LineLength(text);
      LineLengthEndsLine(text);
      LinesShape(text[n..]);
      var ls := Lines(text);
      var tail := Lines(text[n..]);
      assert ls == [text[..n]] + tail;
      forall k | 0 <= k < |ls| ensures ls[k] != [] {
        if k > 0 { assert ls[k] == tail[k - 1]; }
      }
      forall k, i | 0 <= k < |ls| && 0 <= i < |ls[k]| - 1 ensures ls[k][i] != Newline {
        if k > 0 { assert ls[k] == tail[k - 1]; }
      }
      forall k | 0 <= k < |ls| - 1 ensures ls[k][|ls[k]| - 1] == Newline {
        if k == 0 {
          assert tail != [];
        } else {
          assert ls[k] == tail[k - 1];
        }
      }
    }
  }
}
