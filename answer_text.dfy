/**
 * `NIPSParser.clean_answer_text`: the whitespace clean-up applied to every
 * answer before it is kept. The steps are: turn "\r\n" and "\r" into "\n";
 * collapse runs of blank lines with the regular expression
 * `\n\s*\n\s*\n+` -> "\n\n"; strip every line of `splitlines()`; join the
 * lines with "\n"; strip the whole text.
 *
 * `CleanAnswerTextAsWritten` is that pipeline. The regular expression only
 * sees "\n", while `splitlines()` also breaks at "\v", "\f", "\x1c".."\x1e",
 * "\x85", U+2028 and U+2029, so blank lines produced by those survive the
 * collapse (see `TripleNewlineSurvives`). `CleanAnswerText` collapses blank
 * lines after splitting, which is what the documented intent ("collapses
 * multiple blank lines into one") asks for; the rest of the model uses it.
 */
module AnswerText {
  import opened PyStr

  // ----- Step 1: newline normalisation -----

  /** `s.replace("\r\n", "\n")`: left to right, without overlaps. */
  function ReplaceCrLf(s: string): (r: string)
    ensures '\r' !in s ==> r == s
  {
    if |s| >= 2 && s[0] == '\r' && s[1] == '\n' then "\n" + ReplaceCrLf(s[2..])
    else if s == [] then []
    else [s[0]] + ReplaceCrLf(s[1..])
  }

  /** `s.replace("\r", "\n")`. */
  function ReplaceCr(s: string): (r: string)
    ensures '\r' !in r
    ensures '\r' !in s ==> r == s
  {
    if s == [] then []
    else [if s[0] == '\r' then '\n' else s[0]] + ReplaceCr(s[1..])
  }

  /** Step 1: every "\r\n", then every remaining "\r", becomes "\n". */
  function Normalize(s: string): (r: string)
    ensures '\r' !in r
    ensures '\r' !in s ==> r == s
  {
    ReplaceCr(ReplaceCrLf(s))
  }

  // ----- Step 2: the blank-run regular expression -----

  /** Length of the longest all-whitespace prefix of `s`. */
  function SpaceRun(s: string): (n: nat)
    ensures n <= |s|
    ensures forall i :: 0 <= i < n ==> IsSpace(s[i])
    ensures n == |s| || !IsSpace(s[n])
  {
    if s != [] && IsSpace(s[0]) then 1 + SpaceRun(s[1..]) else 0
  }

  function CountNewlines(s: string): (n: nat)
    ensures n > 0 ==> '\n' in s
  {
    if s == [] then 0 else (if s[0] == '\n' then 1 else 0) + CountNewlines(s[1..])
  }

  /** Index of the last "\n" of `s`. */
  function LastNewline(s: string): (i: nat)
    requires '\n' in s
    ensures i < |s| && s[i] == '\n'
    ensures '\n' !in s[i + 1..]
  {
    if s[|s| - 1] == '\n' then |s| - 1 else LastNewline(s[..|s| - 1])
  }

  /**
   * Length of the match of `\n\s*\n\s*\n+` at the head of `s`, or 0 when
   * none starts there. A match starts at a "\n" whose whitespace run (from
   * that "\n" on) holds at least three "\n"; the greedy quantifiers make it
   * end right after the last "\n" of that run.
   */
  function MatchEnd(s: string): (m: nat)
    ensures m <= |s|
    ensures m > 0 ==> s[0] == '\n' && s[m - 1] == '\n'
  {
    if s != [] && s[0] == '\n' && CountNewlines(s[..SpaceRun(s)]) >= 3 then
      LastNewline(s[..SpaceRun(s)]) + 1
    else 0
  }

  /**
   * `re.sub(r'\n\s*\n\s*\n+', '\n\n', s)`: every match becomes "\n\n" and
   * searching resumes after it; a character that starts no match is kept.
   */
  function CollapseBlankRuns(s: string): (r: string)
    ensures '\n' !in s ==> r == s
    decreases |s|
  {
    if s == [] then []
    else if MatchEnd(s) > 0 then "\n\n" + CollapseBlankRuns(s[MatchEnd(s)..])
    else [s[0]] + CollapseBlankRuns(s[1..])
  }

  // ----- Steps 3 and 4: per-line strip, join, strip -----

  function StripAll(lines: seq<string>): (r: seq<string>)
    ensures |r| == |lines|
    ensures forall k :: 0 <= k < |r| ==> r[k] == Strip(lines[k])
  {
    seq(|lines|, k requires 0 <= k < |lines| => Strip(lines[k]))
  }

  /** Lines as `splitlines()` and `strip()` leave them. */
  predicate CleanLines(lines: seq<string>)
  {
    forall k :: 0 <= k < |lines| ==> IsStripped(lines[k]) && NoLineBreak(lines[k])
  }

  /** No two adjacent empty lines. */
  predicate NoBlankRun(lines: seq<string>)
  {
    forall i, j :: 0 <= i < |lines| && 0 <= j < |lines| && j == i + 1 ==> lines[i] != "" || lines[j] != ""
  }

  /** No "\n\n\n" anywhere in `s`. */
  predicate NoTripleNewline(s: string)
  {
    forall i :: 0 <= i < |s| - 2 ==> !(s[i] == '\n' && s[i + 1] == '\n' && s[i + 2] == '\n')
  }

  /** Keeps one empty line of every run of empty lines. */
  function SqueezeBlank(lines: seq<string>): (r: seq<string>)
    ensures NoBlankRun(r)
    ensures |r| > 0 ==> |lines| > 0 && r[0] == lines[0]
    ensures NoBlankRun(lines) ==> r == lines
  {
    if |lines| <= 1 then lines
    else if lines[0] == "" && lines[1] == "" then SqueezeBlank(lines[1..])
    else [lines[0]] + SqueezeBlank(lines[1..])
  }

  /** Number of empty lines at the start. */
  function LeadingEmpty(lines: seq<string>): (n: nat)
    ensures n <= |lines|
    ensures n < |lines| ==> lines[n] != ""
  {
    if lines != [] && lines[0] == "" then 1 + LeadingEmpty(lines[1..]) else 0
  }

  /** Number of empty lines at the end. */
  function TrailingEmpty(lines: seq<string>): (n: nat)
    ensures n <= |lines|
    ensures n < |lines| ==> lines[|lines| - 1 - n] != ""
  {
    if lines != [] && lines[|lines| - 1] == "" then 1 + TrailingEmpty(lines[..|lines| - 1]) else 0
  }

  /** The lines that survive `strip()` of their "\n"-join: the empty ones at both ends go. */
  function DropLeadingEmpty(lines: seq<string>): (r: seq<string>)
  {
    lines[LeadingEmpty(lines)..]
  }

  function DropTrailingEmpty(lines: seq<string>): (r: seq<string>)
  {
    lines[..|lines| - TrailingEmpty(lines)]
  }

  function TrimEmpty(lines: seq<string>): (r: seq<string>)
    ensures r == [] || (r[0] != "" && r[|r| - 1] != "")
  {
    var l := DropLeadingEmpty(lines);
    var m := DropTrailingEmpty(l);
    assert m == [] || m[0] == l[0];
    m
  }

  // ----- The two versions -----

  /** `clean_answer_text` as the source writes it. */
  function CleanAnswerTextAsWritten(text: string): (r: string)
    ensures IsStripped(r)
  {
    Strip(Join(StripAll(SplitLines(CollapseBlankRuns(Normalize(text)))), "\n"))
  }

  /** `clean_answer_text` with blank lines collapsed after `splitlines()`. */
  function CleanAnswerText(text: string): (r: string)
    ensures IsStripped(r)
  {
    Strip(Join(SqueezeBlank(StripAll(SplitLines(Normalize(text)))), "\n"))
  }

  // ----- Lemmas -----

  lemma {:induction false} TrimLeftJoin(lines: seq<string>)
    requires CleanLines(lines)
    ensures TrimLeft(Join(lines, "\n")) == Join(DropLeadingEmpty(lines), "\n")
  {
    if lines != [] && lines[0] == "" {
      if |lines| > 1 {
        var rest := Join(lines[1..], "\n");
        assert Join(lines, "\n") == "\n" + rest;
        assert ("\n" + rest)[1..] == rest;
        TrimLeftJoin(lines[1..]);
      }
    }
  }

  /** An empty last line is dropped along with the empty lines before it. */
  lemma DropTrailingSnoc(init: seq<string>)
    ensures DropTrailingEmpty(init + [""]) == DropTrailingEmpty(init)
  {
    var lines := init + [""];
    assert lines[..|lines| - 1] == init;
    assert TrailingEmpty(lines) == 1 + TrailingEmpty(init);
    assert lines[..|lines| - TrailingEmpty(lines)] == init[..|init| - TrailingEmpty(init)];
  }

  /** Lines with no empty line at either end are left whole. */
  lemma TrimEmptyNoop(lines: seq<string>)
    requires lines == [] || (lines[0] != "" && lines[|lines| - 1] != "")
    ensures TrimEmpty(lines) == lines
  {
    assert LeadingEmpty(lines) == 0;
    assert lines[0..] == lines;
    assert TrailingEmpty(lines) == 0;
    assert lines[..|lines|] == lines;
  }

  /** Clean lines whose last line is not empty lose nothing. */
  lemma TrimRightJoinKept(lines: seq<string>)
    requires lines != [] && lines[|lines| - 1] != "" && IsStripped(lines[|lines| - 1])
    ensures TrimRight(Join(lines, "\n")) == Join(lines, "\n")
  {
    var n := |lines|;
    var last := lines[n - 1];
    if n > 1 {
      JoinLast(lines, "\n");
      TrimRightEndsVisible(Join(lines[..n - 1], "\n"), last);
    }
  }

  /** The join of two or more parts ends with the separator and the last part. */
  lemma JoinLast(parts: seq<string>, sep: string)
    requires |parts| >= 2
    ensures Join(parts, sep) == Join(parts[..|parts| - 1], sep) + sep + parts[|parts| - 1]
  {
    var init := parts[..|parts| - 1];
    assert init + [parts[|parts| - 1]] == parts;
    JoinSnoc(init, parts[|parts| - 1], sep);
  }

  lemma TrimRightEndsVisible(x: string, last: string)
    requires last != [] && !IsSpace(last[|last| - 1])
    ensures TrimRight(x + "\n" + last) == x + "\n" + last
  {
    var j := x + "\n" + last;
    assert j[|j| - 1] == last[|last| - 1];
  }

  /** An empty last line goes, with the "\n" before it. */
  lemma TrimRightJoinEmpty(init: seq<string>)
    requires init != []
    ensures TrimRight(Join(init + [""], "\n")) == TrimRight(Join(init, "\n"))
    ensures DropTrailingEmpty(init + [""]) == DropTrailingEmpty(init)
  {
    var j := Join(init, "\n") + "\n";
    assert Join(init + [""], "\n") == j by {
      JoinSnoc(init, "", "\n");
      assert Join(init, "\n") + "\n" + "" == j;
    }
    assert j[|j| - 1] == '\n';
    assert j[..|j| - 1] == Join(init, "\n");
    DropTrailingSnoc(init);
  }

  lemma {:induction false} TrimRightJoin(lines: seq<string>)
    requires CleanLines(lines)
    ensures TrimRight(Join(lines, "\n")) == Join(DropTrailingEmpty(lines), "\n")
  {
    if lines != [] {
      var n := |lines|;
      if lines[n - 1] != "" {
        assert IsStripped(lines[n - 1]);
        TrimRightJoinKept(lines);
        assert DropTrailingEmpty(lines) == lines by {
          assert TrailingEmpty(lines) == 0;
          assert lines[..n] == lines;
        }
      } else if n == 1 {
        assert TrailingEmpty(lines) == 1;
      } else {
        var init := lines[..n - 1];
        assert lines == init + [""];
        TrimRightJoinEmpty(init);
        TrimRightJoin(init);
      }
    }
  }

  /** `strip()` of the "\n"-join of clean lines only removes the empty lines at both ends. */
  lemma StripJoin(lines: seq<string>)
    requires CleanLines(lines)
    ensures Strip(Join(lines, "\n")) == Join(TrimEmpty(lines), "\n")
  {
    TrimLeftJoin(lines);
    TrimRightJoin(DropLeadingEmpty(lines));
  }

  /** Every character of a join of line-break-free lines is the separator or no line break. */
  lemma {:induction false} JoinChars(lines: seq<string>, sep: char)
    requires forall k :: 0 <= k < |lines| ==> NoLineBreak(lines[k])
    ensures forall i :: 0 <= i < |Join(lines, [sep])| ==>
      Join(lines, [sep])[i] == sep || !IsLineBreak(Join(lines, [sep])[i])
  {
    if |lines| > 1 {
      JoinChars(lines[1..], sep);
    }
  }

  /** A "\n"-join starts with "\n" only when its first line is empty and more follow. */
  lemma {:induction false} JoinHead(lines: seq<string>)
    requires forall k :: 0 <= k < |lines| ==> NoLineBreak(lines[k])
    requires Join(lines, "\n") != [] && Join(lines, "\n")[0] == '\n'
    ensures |lines| >= 2 && lines[0] == ""
    ensures Join(lines, "\n") == "\n" + Join(lines[1..], "\n")
  {
    assert NoLineBreak(lines[0]);
    assert |lines| >= 2 && lines[0] == "" by {
      if |lines| == 1 || lines[0] != "" {
        assert false;
      }
    }
  }

  lemma {:induction false} JoinNoTriple(lines: seq<string>)
    requires forall k :: 0 <= k < |lines| ==> NoLineBreak(lines[k])
    requires NoBlankRun(lines)
    ensures NoTripleNewline(Join(lines, "\n"))
  {
    if |lines| > 1 {
      var x, rest := lines[0], lines[1..];
      var j := Join(rest, "\n");
      var s := x + "\n" + j;
      assert s == Join(lines, "\n");
      JoinNoTriple(rest);
      forall i | 0 <= i < |s| - 2
        ensures !(s[i] == '\n' && s[i + 1] == '\n' && s[i + 2] == '\n')
      {
        if i < |x| {
          assert s[i] == x[i];
        } else if i == |x| {
          if s[i + 1] == '\n' {
            JoinHead(rest);
            assert lines[1] == "";
            assert lines[2] != "";
            assert Join(rest[1..], "\n")[0] == lines[2][0];
          }
        } else {
          assert s[i] == j[i - |x| - 1];
          assert s[i + 1] == j[i - |x|];
          assert s[i + 2] == j[i - |x| + 1];
        }
      }
    }
  }

  /**
   * What the final join-and-strip leaves of clean lines: a text with no
   * "\r", stripped as a whole, whose `splitlines()` are exactly the kept
   * lines, every one of them stripped.
   */
  lemma FinishLines(lines: seq<string>)
    requires CleanLines(lines)
    ensures var r := Strip(Join(lines, "\n"));
      && '\r' !in r
      && IsStripped(r)
      && SplitLines(r) == TrimEmpty(lines)
      && CleanLines(SplitLines(r))
  {
    var m := TrimEmpty(lines);
    var r := Strip(Join(lines, "\n"));
    assert r == Join(m, "\n") by {
      StripJoin(lines);
    }
    TrimEmptyClean(lines);
    assert '\r' !in r by {
      JoinChars(m, '\n');
    }
    assert SplitLines(r) == m by {
      SplitJoinedLines(m, '\n');
    }
  }

  /** `TrimEmpty` keeps a contiguous run of the lines, with no empty line at either end. */
  lemma TrimEmptyAt(lines: seq<string>)
    ensures var m, off := TrimEmpty(lines), |lines| - |DropLeadingEmpty(lines)|;
      && off + |m| <= |lines|
      && (forall k :: 0 <= k < |m| ==> m[k] == lines[off + k])
  {
  }

  lemma TrimEmptyClean(lines: seq<string>)
    requires CleanLines(lines)
    ensures CleanLines(TrimEmpty(lines))
    ensures NoBlankRun(lines) ==> NoBlankRun(TrimEmpty(lines))
  {
    var m, off := TrimEmpty(lines), |lines| - |DropLeadingEmpty(lines)|;
    TrimEmptyAt(lines);
    forall k | 0 <= k < |m| ensures IsStripped(m[k]) && NoLineBreak(m[k]) {
      assert m[k] == lines[off + k];
    }
    if NoBlankRun(lines) {
      forall k | 0 <= k < |m| - 1 ensures m[k] != "" || m[k + 1] != "" {
        assert m[k] == lines[off + k];
        assert m[k + 1] == lines[off + k + 1];
      }
    }
  }

  /** The source's version: no "\r", stripped, every line stripped. */
  lemma CleanAsWrittenShape(text: string)
    ensures var r := CleanAnswerTextAsWritten(text);
      && '\r' !in r
      && IsStripped(r)
      && forall k :: 0 <= k < |SplitLines(r)| ==> IsStripped(SplitLines(r)[k])
  {
    var lines := StripAll(SplitLines(CollapseBlankRuns(Normalize(text))));
    SplitStripClean(CollapseBlankRuns(Normalize(text)));
    FinishLines(lines);
  }

  /** Clean lines with no empty line at either end are left alone by the final strip. */
  lemma {:induction false} StripAllClean(lines: seq<string>)
    requires CleanLines(lines)
    ensures StripAll(lines) == lines
  {
    forall k | 0 <= k < |lines| ensures Strip(lines[k]) == lines[k] {
      assert TrimLeft(lines[k]) == lines[k];
    }
  }

  lemma NoLineBreakSlice(s: string, i: nat, j: nat)
    requires NoLineBreak(s) && i <= j <= |s|
    ensures NoLineBreak(s[i..j])
  {
    forall k | 0 <= k < j - i ensures !IsLineBreak(s[i..j][k]) {
      assert s[i..j][k] == s[i + k];
    }
  }

  lemma StripKeepsNoLineBreak(s: string)
    requires NoLineBreak(s)
    ensures NoLineBreak(Strip(s))
  {
    var l := TrimLeft(s);
    assert NoLineBreak(l) by {
      TrimLeftSuffix(s);
      NoLineBreakSlice(s, |s| - |l|, |s|);
    }
    var r := TrimRight(l);
    assert NoLineBreak(r) by {
      TrimRightPrefix(l);
      NoLineBreakSlice(l, 0, |r|);
    }
  }

  /** `splitlines()` followed by a strip of every line gives clean lines. */
  lemma SplitStripClean(s: string)
    ensures CleanLines(StripAll(SplitLines(s)))
  {
    var lines := SplitLines(s);
    forall k | 0 <= k < |lines| ensures NoLineBreak(Strip(lines[k])) {
      StripKeepsNoLineBreak(lines[k]);
    }
  }

  lemma {:induction false} SqueezeClean(lines: seq<string>)
    requires CleanLines(lines)
    ensures CleanLines(SqueezeBlank(lines))
  {
    if |lines| > 1 {
      assert CleanLines(lines[1..]) by {
        forall k | 0 <= k < |lines[1..]| ensures IsStripped(lines[1..][k]) && NoLineBreak(lines[1..][k]) {
          assert lines[1..][k] == lines[k + 1];
        }
      }
      SqueezeClean(lines[1..]);
      if !(lines[0] == "" && lines[1] == "") {
        var r := SqueezeBlank(lines[1..]);
        assert IsStripped(lines[0]) && NoLineBreak(lines[0]);
        forall k | 0 <= k < |[lines[0]] + r| ensures IsStripped(([lines[0]] + r)[k]) && NoLineBreak(([lines[0]] + r)[k]) {
          if k > 0 {
            assert ([lines[0]] + r)[k] == r[k - 1];
          }
        }
      }
    }
  }

  /**
   * The source's version on lines joined by a line break other than "\n" and
   * "\r": the regular expression finds no "\n" to collapse, so every empty
   * line between two kept lines survives as its own "\n".
   */
  lemma AsWrittenKeepsOtherBreaks(lines: seq<string>, sep: char)
    requires IsLineBreak(sep) && sep != '\n' && sep != '\r'
    requires CleanLines(lines)
    requires lines == [] || lines[|lines| - 1] != ""
    ensures CleanAnswerTextAsWritten(Join(lines, [sep])) == Join(TrimEmpty(lines), "\n")
  {
    var t := Join(lines, [sep]);
    assert Normalize(t) == t && CollapseBlankRuns(t) == t by {
      JoinChars(lines, sep);
      assert '\r' !in t && '\n' !in t;
    }
    assert SplitLines(t) == lines by {
      SplitJoinedLines(lines, sep);
    }
    assert StripAll(lines) == lines by {
      StripAllClean(lines);
    }
    StripJoin(lines);
  }

  lemma JoinFour(a: char, b: char, sep: string)
    ensures Join([[a], [], [], [b]], sep) == [a] + sep + sep + sep + [b]
  {
    var lines: seq<string> := [[a], [], [], [b]];
    assert lines[1..] == [[], [], [b]];
    assert lines[1..][1..] == [[], [b]];
    assert Join(lines[1..][1..], sep) == [] + sep + [b];
    assert Join(lines[1..], sep) == [] + sep + ([] + sep + [b]);
  }

  /**
   * The source's version on three line breaks other than "\n" and "\r"
   * between two visible characters: they all come out as "\n".
   */
  lemma AsWrittenOtherBreakRun(a: char, b: char, sep: char)
    requires !IsSpace(a) && !IsSpace(b)
    requires IsLineBreak(sep) && sep != '\n' && sep != '\r'
    ensures CleanAnswerTextAsWritten([a, sep, sep, sep, b]) == [a, '\n', '\n', '\n', b]
  {
    var lines: seq<string> := [[a], [], [], [b]];
    assert CleanLines(lines) by {
      forall k | 0 <= k < |lines| ensures IsStripped(lines[k]) && NoLineBreak(lines[k]) {
      }
    }
    var t, u := Join(lines, [sep]), Join(lines, "\n");
    assert t == [a, sep, sep, sep, b] by {
      JoinFour(a, b, [sep]);
    }
    assert u == [a, '\n', '\n', '\n', b] by {
      JoinFour(a, b, "\n");
    }
    assert TrimEmpty(lines) == lines;
    AsWrittenKeepsOtherBreaks(lines, sep);
    assert CleanAnswerTextAsWritten(t) == u;
  }

  /** The regular expression turns the three "\n" between two visible characters into two. */
  lemma CollapseNewlineRun(a: char, b: char)
    requires !IsSpace(a) && !IsSpace(b)
    ensures CollapseBlankRuns([a, '\n', '\n', '\n', b]) == [a, '\n', '\n', b]
  {
    var tail: string := ['\n', '\n', '\n', b];
    assert SpaceRun(tail[3..]) == 0;
    assert tail[2..][1..] == tail[3..];
    assert SpaceRun(tail[2..]) == 1;
    assert tail[1..][1..] == tail[2..];
    assert SpaceRun(tail[1..]) == 2;
    assert SpaceRun(tail) == 3;
    var run := tail[..3];
    assert run == ['\n', '\n', '\n'];
    assert CountNewlines(run[2..]) == 1;
    assert run[1..][1..] == run[2..];
    assert CountNewlines(run[1..]) == 2;
    assert CountNewlines(run) == 3;
    assert LastNewline(run) == 2;
    assert tail[3..] == [b];
    assert CollapseBlankRuns(tail) == "\n\n" + CollapseBlankRuns([b]);
    assert [a, '\n', '\n', '\n', b][1..] == tail;
  }

  /** The source's version on three "\n" between two visible characters: one empty line is left. */
  lemma JoinAroundEmpty(a: char, b: char)
    ensures Join([[a], [], [b]], "\n") == [a, '\n', '\n', b]
  {
    var lines: seq<string> := [[a], [], [b]];
    assert lines[1..] == [[], [b]];
    assert Join(lines[1..], "\n") == [] + "\n" + [b];
  }

  lemma WordsClean(a: char, b: char)
    requires !IsSpace(a) && !IsSpace(b)
    ensures CleanLines([[a], [], [b]])
  {
    var lines: seq<string> := [[a], [], [b]];
    forall k | 0 <= k < |lines| ensures IsStripped(lines[k]) && NoLineBreak(lines[k]) {
    }
  }

  lemma AsWrittenNewlineRun(a: char, b: char)
    requires !IsSpace(a) && !IsSpace(b)
    ensures CleanAnswerTextAsWritten([a, '\n', '\n', '\n', b]) == [a, '\n', '\n', b]
  {
    var t: string := [a, '\n', '\n', '\n', b];
    var u: string := [a, '\n', '\n', b];
    var lines: seq<string> := [[a], [], [b]];
    assert Normalize(t) == t by {
      assert '\r' !in t;
    }
    assert CollapseBlankRuns(t) == u by {
      CollapseNewlineRun(a, b);
    }
    assert SplitLines(u) == lines by {
      JoinAroundEmpty(a, b);
      WordsClean(a, b);
      SplitJoinedLines(lines, '\n');
    }
    assert StripAll(lines) == lines by {
      WordsClean(a, b);
      StripAllClean(lines);
    }
    assert Strip(u) == u by {
      JoinAroundEmpty(a, b);
      WordsClean(a, b);
      StripJoin(lines);
      TrimEmptyNoop(lines);
    }
    JoinAroundEmpty(a, b);
  }

  /**
   * Counterexample to the collapse as written: three form feeds between two
   * words come out as "\n\n\n", and cleaning that again changes it.
   */
  lemma TripleNewlineSurvives()
    ensures CleanAnswerTextAsWritten("a\U{C}\U{C}\U{C}b") == "a\n\n\nb"
    ensures !NoTripleNewline(CleanAnswerTextAsWritten("a\U{C}\U{C}\U{C}b"))
    ensures CleanAnswerTextAsWritten(CleanAnswerTextAsWritten("a\U{C}\U{C}\U{C}b")) == "a\n\nb"
  {
    AsWrittenOtherBreakRun('a', 'b', '\U{C}');
    AsWrittenNewlineRun('a', 'b');
    var r := "a\n\n\nb";
    assert r[1] == '\n' && r[2] == '\n' && r[3] == '\n';
  }

  /** The lines of the corrected clean's result. */
  function CleanedLines(text: string): seq<string>
  {
    TrimEmpty(SqueezeBlank(StripAll(SplitLines(Normalize(text)))))
  }

  /** The lines the corrected cleaning keeps are stripped, without runs of blank lines. */
  lemma CleanedClean(text: string)
    ensures CleanLines(CleanedLines(text)) && NoBlankRun(CleanedLines(text))
  {
    var split := StripAll(SplitLines(Normalize(text)));
    var lines := SqueezeBlank(split);
    assert CleanLines(lines) && NoBlankRun(lines) by {
      SplitStripClean(Normalize(text));
      SqueezeClean(split);
    }
    TrimEmptyClean(lines);
  }

  /** The corrected cleaning is the kept lines joined with "\n". */
  lemma CleanedJoin(text: string)
    ensures CleanAnswerText(text) == Join(CleanedLines(text), "\n")
  {
    var split := StripAll(SplitLines(Normalize(text)));
    var lines := SqueezeBlank(split);
    assert CleanLines(lines) by {
      SplitStripClean(Normalize(text));
      SqueezeClean(split);
    }
    StripJoin(lines);
  }

  /**
   * The corrected version: no "\r", stripped as a whole, every line
   * stripped, blank lines collapsed (no "\n\n\n").
   */
  lemma CleanShape(text: string)
    ensures var r := CleanAnswerText(text);
      && '\r' !in r
      && IsStripped(r)
      && CleanLines(SplitLines(r))
      && NoBlankRun(SplitLines(r))
      && NoTripleNewline(r)
  {
    var m := CleanedLines(text);
    var r := CleanAnswerText(text);
    assert r == Join(m, "\n") by {
      CleanedJoin(text);
    }
    assert CleanLines(m) && NoBlankRun(m) by {
      CleanedClean(text);
    }
    assert '\r' !in r by {
      JoinChars(m, '\n');
    }
    assert SplitLines(r) == m by {
      SplitJoinedLines(m, '\n');
    }
    assert NoTripleNewline(r) by {
      JoinNoTriple(m);
    }
  }

  /** Cleaning a cleaned text changes nothing. */
  lemma CleanIdempotent(text: string)
    ensures CleanAnswerText(CleanAnswerText(text)) == CleanAnswerText(text)
  {
    var m := CleanedLines(text);
    var r := CleanAnswerText(text);
    assert r == Join(m, "\n") by {
      CleanedJoin(text);
    }
    assert CleanedLines(r) == m by {
      CleanedClean(text);
      assert Normalize(r) == r by {
        JoinChars(m, '\n');
      }
      assert SplitLines(r) == m by {
        SplitJoinedLines(m, '\n');
      }
      assert StripAll(m) == m by {
        StripAllClean(m);
      }
      assert SqueezeBlank(m) == m;
      TrimEmptyNoop(m);
    }
    CleanedJoin(r);
  }
}
