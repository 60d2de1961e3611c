/**
 * Where the two versions of `clean_answer_text` agree. The regular
 * expression of the source only sees "\n"; once "\r\n" and "\r" are
 * turned into "\n", it sees every line break of a text whose line breaks
 * are all "\n" or "\r". On such a text collapsing runs of blank lines
 * before `splitlines()` (as written) and after it (`CleanAnswerText`)
 * give the same result: `CleanAgrees`.
 *
 * The proof views a text as the parts between its "\n"s. The regular
 * expression replaces every run of two or more all-whitespace parts that
 * stands between two "\n"s by one empty part (`CollapseParts`); after the
 * per-line strip and the final strip, that is the same as keeping one
 * empty line of every run of empty lines.
 */
module CleanAgreement {
  import opened Types
  import opened PyStr
  import opened AnswerText

  /** Every line break of `t` is "\n" or "\r". */
  predicate PlainBreaks(t: string)
  {
    forall i :: 0 <= i < |t| && IsLineBreak(t[i]) ==> t[i] in "\n\r"
  }

  /** Every line break of `s` is "\n". */
  predicate OnlyNewlines(s: string)
  {
    forall i :: 0 <= i < |s| && IsLineBreak(s[i]) ==> s[i] == '\n'
  }

  /** `p` holds whitespace only (`p.strip() == ""`). */
  predicate Blank(p: string)
  {
    forall i :: 0 <= i < |p| ==> IsSpace(p[i])
  }

  // ----- Newline normalisation -----

  lemma {:induction false} ReplaceCrLfPlain(s: string)
    requires PlainBreaks(s)
    ensures PlainBreaks(ReplaceCrLf(s))
    decreases |s|
  {
    if |s| >= 2 && s[0] == '\r' && s[1] == '\n' {
      assert PlainBreaks(s[2..]) by {
        forall i | 0 <= i < |s| - 2 && IsLineBreak(s[2..][i]) ensures s[2..][i] in "\n\r" {
          assert s[2..][i] == s[i + 2];
        }
      }
      ReplaceCrLfPlain(s[2..]);
    } else if s != [] {
      assert PlainBreaks(s[1..]) by {
        forall i | 0 <= i < |s| - 1 && IsLineBreak(s[1..][i]) ensures s[1..][i] in "\n\r" {
          assert s[1..][i] == s[i + 1];
        }
      }
      ReplaceCrLfPlain(s[1..]);
      var r := ReplaceCrLf(s);
      assert r == [s[0]] + ReplaceCrLf(s[1..]);
      forall i | 0 <= i < |r| && IsLineBreak(r[i]) ensures r[i] in "\n\r" {
        if i > 0 {
          assert r[i] == ReplaceCrLf(s[1..])[i - 1];
        }
      }
    }
  }

  lemma {:induction false} ReplaceCrOnlyNewlines(s: string)
    requires PlainBreaks(s)
    ensures OnlyNewlines(ReplaceCr(s))
    decreases |s|
  {
    if s != [] {
      assert PlainBreaks(s[1..]) by {
        forall i | 0 <= i < |s| - 1 && IsLineBreak(s[1..][i]) ensures s[1..][i] in "\n\r" {
          assert s[1..][i] == s[i + 1];
        }
      }
      ReplaceCrOnlyNewlines(s[1..]);
      var r := ReplaceCr(s);
      var tail := ReplaceCr(s[1..]);
      assert r == [if s[0] == '\r' then '\n' else s[0]] + tail;
      forall i | 0 <= i < |r| && IsLineBreak(r[i]) ensures r[i] == '\n' {
        if i > 0 {
          assert r[i] == tail[i - 1];
        }
      }
    }
  }

  /** After normalisation the only line break left is "\n". */
  lemma NormalizeOnlyNewlines(t: string)
    requires PlainBreaks(t)
    ensures OnlyNewlines(Normalize(t))
  {
    ReplaceCrLfPlain(t);
    ReplaceCrOnlyNewlines(ReplaceCrLf(t));
  }

  // ----- The parts between the "\n"s -----

  /** Index of the first "\n" of `s`, or `|s|`. */
  function NewlineAt(s: string): (j: nat)
    ensures j <= |s| && '\n' !in s[..j]
    ensures j < |s| ==> s[j] == '\n'
  {
    if s == [] || s[0] == '\n' then 0
    else
      var j := 1 + NewlineAt(s[1..]);
      assert s[..j] == [s[0]] + s[1..][..j - 1];
      j
  }

  /** `s.split("\n")`: the parts of `s` between its "\n"s, empty ones included. */
  function SplitNewlines(s: string): (parts: seq<string>)
    ensures parts != [] && Join(parts, "\n") == s
    ensures forall k :: 0 <= k < |parts| ==> '\n' !in parts[k]
    decreases |s|
  {
    var j := NewlineAt(s);
    if j == |s| then
      assert s[..j] == s;
      [s]
    else
      var rest := SplitNewlines(s[j + 1..]);
      assert ([s[..j]] + rest)[1..] == rest;
      assert s == s[..j] + "\n" + s[j + 1..];
      [s[..j]] + rest
  }

  lemma {:induction false} SplitNewlinesNoBreak(s: string)
    requires OnlyNewlines(s)
    ensures forall k :: 0 <= k < |SplitNewlines(s)| ==> NoLineBreak(SplitNewlines(s)[k])
    decreases |s|
  {
    var parts := SplitNewlines(s);
    var j := NewlineAt(s);
    assert NoLineBreak(s[..j]) by {
      forall i | 0 <= i < j ensures !IsLineBreak(s[..j][i]) {
        assert s[..j][i] == s[i];
        assert s[..j][i] in s[..j];
      }
    }
    if j < |s| {
      var rest := s[j + 1..];
      assert OnlyNewlines(rest) by {
        forall i | 0 <= i < |rest| && IsLineBreak(rest[i]) ensures rest[i] == '\n' {
          assert rest[i] == s[j + 1 + i];
        }
      }
      SplitNewlinesNoBreak(rest);
      assert parts == [s[..j]] + SplitNewlines(rest);
      forall k | 0 <= k < |parts| ensures NoLineBreak(parts[k]) {
        if k > 0 {
          assert parts[k] == SplitNewlines(rest)[k - 1];
        }
      }
    } else {
      assert s[..j] == s;
    }
  }

  /** `parts` without its last part when that part is empty: what `splitlines()` gives back of their join. */
  function DropLastEmpty(parts: seq<string>): (r: seq<string>)
  {
    if parts != [] && parts[|parts| - 1] == "" then parts[..|parts| - 1] else parts
  }

  /** A line followed by "\n" is the first line of `splitlines()`. */
  lemma SplitNewlineStep(x: string, rest: string)
    requires NoLineBreak(x)
    ensures SplitLines(x + ("\n" + rest)) == [x] + SplitLines(rest)
  {
    var s := x + ("\n" + rest);
    LineEndAt(x, "\n" + rest);
    assert s[|x|] == '\n';
    assert s[..|x|] == x;
    assert s[|x| + 1..] == rest;
  }

  /** Lines joined with "\n" and ended by one more "\n" split back into the lines. */
  lemma {:induction false} SplitTerminated(lines: seq<string>)
    requires lines != []
    requires forall k :: 0 <= k < |lines| ==> NoLineBreak(lines[k])
    ensures SplitLines(Join(lines, "\n") + "\n") == lines
  {
    var x := lines[0];
    if |lines| == 1 {
      assert Join(lines, "\n") + "\n" == x + ("\n" + "");
      SplitNewlineStep(x, "");
    } else {
      var rest := Join(lines[1..], "\n") + "\n";
      assert Join(lines, "\n") + "\n" == x + ("\n" + rest);
      SplitNewlineStep(x, rest);
      SplitTerminated(lines[1..]);
      assert lines == [x] + lines[1..];
    }
  }

  /** `splitlines()` of a "\n"-join gives the parts back, but a trailing "\n" opens no last line. */
  lemma SplitJoin(parts: seq<string>)
    requires parts != []
    requires forall k :: 0 <= k < |parts| ==> NoLineBreak(parts[k])
    ensures SplitLines(Join(parts, "\n")) == DropLastEmpty(parts)
  {
    var n := |parts|;
    if parts[n - 1] != "" {
      SplitJoinedLines(parts, '\n');
    } else if n > 1 {
      JoinLast(parts, "\n");
      assert Join(parts, "\n") == Join(parts[..n - 1], "\n") + "\n";
      SplitTerminated(parts[..n - 1]);
    }
  }

  // ----- The regular expression on the parts -----

  /** Number of leading all-whitespace parts. */
  function LeadingBlank(parts: seq<string>): (n: nat)
    ensures n <= |parts|
    ensures forall k :: 0 <= k < n ==> Blank(parts[k])
    ensures n < |parts| ==> !Blank(parts[n])
  {
    if parts != [] && Blank(parts[0]) then 1 + LeadingBlank(parts[1..]) else 0
  }

  /**
   * What `re.sub(r'\n\s*\n\s*\n+', '\n\n', ...)` does to the parts of a
   * text: after a part, two or more all-whitespace parts each followed by
   * a "\n" become one empty part.
   */
  function CollapseParts(parts: seq<string>): (r: seq<string>)
    ensures |parts| > 0 ==> |r| > 0 && r[0] == parts[0]
    decreases |parts|
  {
    if |parts| <= 1 then parts
    else
      var rest := parts[1..];
      var b := LeadingBlank(rest[..|rest| - 1]);
      if b >= 2 then [parts[0], ""] + CollapseParts(rest[b..])
      else [parts[0]] + CollapseParts(rest)
  }

  lemma {:induction false} CollapsePartsNoBreak(parts: seq<string>)
    requires forall k :: 0 <= k < |parts| ==> NoLineBreak(parts[k])
    ensures forall k :: 0 <= k < |CollapseParts(parts)| ==> NoLineBreak(CollapseParts(parts)[k])
    decreases |parts|
  {
    if |parts| > 1 {
      var rest := parts[1..];
      var b := LeadingBlank(rest[..|rest| - 1]);
      var r := CollapseParts(parts);
      if b >= 2 {
        var tail := CollapseParts(rest[b..]);
        CollapsePartsNoBreak(rest[b..]);
        assert r == [parts[0], ""] + tail;
        forall k | 0 <= k < |r| ensures NoLineBreak(r[k]) {
          if k >= 2 {
            assert r[k] == tail[k - 2];
          }
        }
      } else {
        var tail := CollapseParts(rest);
        CollapsePartsNoBreak(rest);
        assert r == [parts[0]] + tail;
        forall k | 0 <= k < |r| ensures NoLineBreak(r[k]) {
          if k >= 1 {
            assert r[k] == tail[k - 1];
          }
        }
      }
    }
  }

  lemma JoinCons(x: string, rest: seq<string>, sep: string)
    requires rest != []
    ensures Join([x] + rest, sep) == x + sep + Join(rest, sep)
  {
    assert ([x] + rest)[1..] == rest;
  }

  lemma {:induction false} SpaceRunBlank(w: string, t: string)
    requires Blank(w)
    ensures SpaceRun(w + t) == |w| + SpaceRun(t)
  {
    if w == [] {
      assert w + t == t;
    } else {
      assert (w + t)[0] == w[0];
      assert (w + t)[1..] == w[1..] + t;
      SpaceRunBlank(w[1..], t);
    }
  }

  lemma {:induction false} SpaceRunStops(x: string, t: string)
    requires !Blank(x)
    ensures SpaceRun(x + t) == SpaceRun(x) < |x|
  {
    assert x != [];
    assert (x + t)[0] == x[0];
    if IsSpace(x[0]) {
      assert (x + t)[1..] == x[1..] + t;
      SpaceRunStops(x[1..], t);
    }
  }

  lemma {:induction false} CountNewlinesAppend(a: string, b: string)
    ensures CountNewlines(a + b) == CountNewlines(a) + CountNewlines(b)
  {
    if a == [] {
      assert a + b == b;
    } else {
      assert (a + b)[0] == a[0];
      assert (a + b)[1..] == a[1..] + b;
      CountNewlinesAppend(a[1..], b);
    }
  }

  lemma {:induction false} CountNewlinesNone(a: string)
    requires '\n' !in a
    ensures CountNewlines(a) == 0
  {
    if a != [] {
      assert a[0] in a;
      assert forall c :: c in a[1..] ==> c in a;
      CountNewlinesNone(a[1..]);
    }
  }

  lemma {:induction false} LastNewlineAppend(a: string, r: string)
    requires '\n' in r
    ensures LastNewline(a + r) == |a| + LastNewline(r)
    decreases |r|
  {
    var s := a + r;
    assert s[|s| - 1] == r[|r| - 1];
    if r[|r| - 1] != '\n' {
      var r' := r[..|r| - 1];
      assert '\n' in r' by {
        var i :| 0 <= i < |r| && r[i] == '\n';
        assert r'[i] == '\n';
      }
      assert s[..|s| - 1] == a + r';
      LastNewlineAppend(a, r');
    }
  }

  lemma LastNewlineHead(y: string)
    requires '\n' !in y
    ensures '\n' in "\n" + y && LastNewline("\n" + y) == 0
    ensures CountNewlines("\n" + y) == 1
  {
    var s := "\n" + y;
    assert s[0] == '\n';
    assert s[1..] == y;
    CountNewlinesNone(y);
    LastNewlineAppend("", s);
    if |y| > 0 {
      assert s[..|s| - 1] == "\n" + y[..|y| - 1];
      assert forall c :: c in y[..|y| - 1] ==> c in y;
      assert y[|y| - 1] in y;
      LastNewlineHead(y[..|y| - 1]);
    }
  }

  /**
   * The whitespace run at the head of `s` holds `1 + b` "\n"s and what
   * follows its last "\n" is `tail`.
   */
  predicate RunFacts(s: string, b: nat, tail: string)
  {
    var run := s[..SpaceRun(s)];
    && '\n' in run
    && CountNewlines(run) == 1 + b
    && s[LastNewline(run) + 1..] == tail
  }

  /**
   * The whitespace run that starts at a "\n" followed by the parts `ys`
   * holds one "\n" more than the leading all-whitespace parts of `ys` that
   * a "\n" follows, and its last "\n" is the one in front of the first
   * part after them.
   */
  predicate RunAgrees(ys: seq<string>)
    requires ys != []
  {
    var b := LeadingBlank(ys[..|ys| - 1]);
    b < |ys| && RunFacts("\n" + Join(ys, "\n"), b, Join(ys[b..], "\n"))
  }

  /** A "\n" followed by whitespace `y` with no "\n" and then something that ends the run. */
  lemma RunHead(y: string, t: string)
    requires '\n' !in y
    requires SpaceRun("\n" + y + t) == 1 + |y|
    ensures RunFacts("\n" + y + t, 0, y + t)
  {
    var s := "\n" + y + t;
    assert s[..1 + |y|] == "\n" + y;
    LastNewlineHead(y);
    assert s[1..] == y + t;
  }

  lemma RunSingle(x: string)
    requires '\n' !in x
    ensures RunAgrees([x])
  {
    var ys := [x];
    assert Join(ys, "\n") == x;
    var s := "\n" + x;
    assert s[0] == '\n' && s[1..] == x;
    var n := SpaceRun(s);
    assert n >= 1;
    var y := x[..n - 1];
    assert '\n' !in y by {
      assert forall c :: c in y ==> c in x;
    }
    assert s == "\n" + y + x[n - 1..];
    RunHead(y, x[n - 1..]);
    assert y + x[n - 1..] == x;
    assert ys[..|ys| - 1] == [];
    assert ys[0..] == ys;
  }

  /** A "\n" followed by a line that is not all whitespace: the run ends inside that line. */
  lemma RunStops(x: string, t: string)
    requires '\n' !in x && !Blank(x)
    ensures RunFacts("\n" + (x + t), 0, x + t)
  {
    var s := "\n" + (x + t);
    assert s[0] == '\n' && s[1..] == x + t;
    SpaceRunStops(x, t);
    var m := SpaceRun(x);
    assert SpaceRun(s) == 1 + m;
    var y := x[..m];
    assert '\n' !in y by {
      assert forall c :: c in y ==> c in x;
    }
    assert s == "\n" + y + (x[m..] + t);
    RunHead(y, x[m..] + t);
    assert y + (x[m..] + t) == x + t;
  }

  lemma RunNonBlank(x: string, ys': seq<string>)
    requires ys' != [] && '\n' !in x && !Blank(x)
    ensures RunAgrees([x] + ys')
  {
    var ys := [x] + ys';
    var t := "\n" + Join(ys', "\n");
    JoinCons(x, ys', "\n");
    assert ys[..|ys| - 1][0] == x;
    assert LeadingBlank(ys[..|ys| - 1]) == 0;
    assert "\n" + Join(ys, "\n") == "\n" + (x + t);
    RunStops(x, t);
    assert ys[0..] == ys;
  }

  lemma LeadingBlankCons(x: string, ys': seq<string>)
    requires ys' != [] && Blank(x)
    ensures LeadingBlank(([x] + ys')[..|ys'|]) == 1 + LeadingBlank(ys'[..|ys'| - 1])
  {
    var l := ([x] + ys')[..|ys'|];
    assert l == [x] + ys'[..|ys'| - 1];
    assert l[1..] == ys'[..|ys'| - 1];
  }

  lemma NewlinesConcat(w: string, r: string)
    requires '\n' in r
    ensures '\n' in w + r
    ensures CountNewlines(w + r) == CountNewlines(w) + CountNewlines(r)
    ensures LastNewline(w + r) == |w| + LastNewline(r)
  {
    var i :| 0 <= i < |r| && r[i] == '\n';
    assert (w + r)[|w| + i] == '\n';
    CountNewlinesAppend(w, r);
    LastNewlineAppend(w, r);
  }

  lemma RunOfConcat(w: string, t: string)
    requires Blank(w)
    ensures (w + t)[..SpaceRun(w + t)] == w + t[..SpaceRun(t)]
  {
    SpaceRunBlank(w, t);
    assert (w + t)[..|w| + SpaceRun(t)] == w + t[..SpaceRun(t)];
  }

  lemma RunFactsOf(s: string, run: string, b: nat, tail: string, l: nat)
    requires run == s[..SpaceRun(s)] && '\n' in run
    requires CountNewlines(run) == 1 + b && LastNewline(run) == l && s[l + 1..] == tail
    ensures RunFacts(s, b, tail)
  {
  }

  lemma ConcatSuffix(w: string, t: string, n: nat)
    requires n <= |t|
    ensures (w + t)[|w| + n..] == t[n..]
  {
  }

  /** Blank text with one "\n" in front of a run adds that "\n" to the run and leaves the run's end where it was. */
  lemma RunAppend(w: string, t: string, b: nat, tail: string)
    requires Blank(w) && CountNewlines(w) == 1
    requires RunFacts(t, b, tail)
    ensures RunFacts(w + t, b + 1, tail)
  {
    var r := t[..SpaceRun(t)];
    var l := LastNewline(r);
    assert '\n' in r && CountNewlines(r) == 1 + b && t[l + 1..] == tail;
    RunOfConcat(w, t);
    NewlinesConcat(w, r);
    ConcatSuffix(w, t, l + 1);
    RunFactsOf(w + t, w + r, b + 1, tail, |w| + l);
  }

  lemma RunBlank(x: string, ys': seq<string>)
    requires ys' != [] && '\n' !in x && Blank(x)
    requires RunAgrees(ys')
    ensures RunAgrees([x] + ys')
  {
    var ys := [x] + ys';
    var t := "\n" + Join(ys', "\n");
    JoinCons(x, ys', "\n");
    var w := "\n" + x;
    assert "\n" + Join(ys, "\n") == w + t;
    assert Blank(w);
    var b' := LeadingBlank(ys'[..|ys'| - 1]);
    LeadingBlankCons(x, ys');
    LastNewlineHead(x);
    RunAppend(w, t, b', Join(ys'[b'..], "\n"));
    assert ys'[b'..] == ys[1 + b'..];
  }

  lemma {:induction false} RunShape(ys: seq<string>)
    requires ys != [] && NewlineFree(ys)
    ensures RunAgrees(ys)
  {
    if |ys| == 1 {
      RunSingle(ys[0]);
      assert ys == [ys[0]];
    } else {
      var ys' := ys[1..];
      assert ys == [ys[0]] + ys';
      if Blank(ys[0]) {
        RunShape(ys');
        RunBlank(ys[0], ys');
      } else {
        RunNonBlank(ys[0], ys');
      }
    }
  }

  /** A character other than "\n" is copied and the search moves on. */
  lemma CollapseOther(s: string)
    requires s != [] && s[0] != '\n'
    ensures CollapseBlankRuns(s) == [s[0]] + CollapseBlankRuns(s[1..])
  {
  }

  /** At a "\n" whose run holds three or more "\n"s, the match ends after its last "\n". */
  lemma MatchAtRun(s: string)
    requires s != [] && s[0] == '\n' && CountNewlines(s[..SpaceRun(s)]) >= 3
    ensures '\n' in s[..SpaceRun(s)]
    ensures MatchEnd(s) == LastNewline(s[..SpaceRun(s)]) + 1
  {
  }

  /** A match becomes "\n\n". */
  lemma CollapseMatch(s: string)
    requires s != [] && MatchEnd(s) > 0
    ensures CollapseBlankRuns(s) == "\n\n" + CollapseBlankRuns(s[MatchEnd(s)..])
  {
  }

  /** At a "\n" whose run holds fewer than three "\n"s, the "\n" is kept. */
  lemma CollapseAtKeep(s: string)
    requires s != [] && s[0] == '\n' && CountNewlines(s[..SpaceRun(s)]) < 3
    ensures CollapseBlankRuns(s) == "\n" + CollapseBlankRuns(s[1..])
  {
    assert [s[0]] == "\n";
  }

  /** Copying a first character that is not "\n" does not depend on what follows it. */
  lemma CollapseStep(x: string, t: string)
    requires x != [] && x[0] != '\n'
    ensures CollapseBlankRuns(x + t) == [x[0]] + CollapseBlankRuns(x[1..] + t)
  {
    var xt := x + t;
    assert xt[0] == x[0];
    assert xt[1..] == x[1..] + t;
    CollapseOther(xt);
  }

  lemma ConsSplit(x: string, c: string)
    requires x != []
    ensures [x[0]] + (x[1..] + c) == x + c
  {
    assert x == [x[0]] + x[1..];
  }

  /** Text before the first "\n" passes through the regular expression unchanged. */
  lemma {:induction false} CollapsePrefix(x: string, t: string)
    requires forall i :: 0 <= i < |x| ==> x[i] != '\n'
    ensures CollapseBlankRuns(x + t) == x + CollapseBlankRuns(t)
  {
    if x == [] {
      assert x + t == t;
    } else {
      var c := CollapseBlankRuns(t);
      CollapseStep(x, t);
      CollapsePrefix(x[1..], t);
      ConsSplit(x, c);
    }
  }

  /** At the "\n" in front of the parts `ys`: two or more leading blank parts (each followed by a "\n") are one match. */
  /** At a "\n" whose run holds `1 + b` "\n"s and is followed by `tail`. */
  lemma CollapseAtRun(s: string, b: nat, tail: string)
    requires s != [] && s[0] == '\n' && RunFacts(s, b, tail)
    ensures CollapseBlankRuns(s) ==
      if b >= 2 then "\n\n" + CollapseBlankRuns(tail) else "\n" + CollapseBlankRuns(s[1..])
  {
    if b >= 2 {
      MatchAtRun(s);
      CollapseMatch(s);
    } else {
      CollapseAtKeep(s);
    }
  }

  lemma CollapseNewline(ys: seq<string>)
    requires ys != [] && NewlineFree(ys)
    ensures var b := LeadingBlank(ys[..|ys| - 1]);
      b < |ys| &&
      CollapseBlankRuns("\n" + Join(ys, "\n")) ==
        if b >= 2 then "\n\n" + CollapseBlankRuns(Join(ys[b..], "\n"))
        else "\n" + CollapseBlankRuns(Join(ys, "\n"))
  {
    var s := "\n" + Join(ys, "\n");
    RunShape(ys);
    var b := LeadingBlank(ys[..|ys| - 1]);
    CollapseAtRun(s, b, Join(ys[b..], "\n"));
    assert s[1..] == Join(ys, "\n");
  }

  lemma CollapsePartsCons(x: string, ys: seq<string>)
    requires ys != []
    ensures var b := LeadingBlank(ys[..|ys| - 1]);
      b <= |ys| &&
      CollapseParts([x] + ys) ==
        if b >= 2 then [x, ""] + CollapseParts(ys[b..]) else [x] + CollapseParts(ys)
  {
    assert ([x] + ys)[0] == x && ([x] + ys)[1..] == ys;
  }

  lemma CollapseCons(x: string, ys: seq<string>)
    requires ys != [] && '\n' !in x
    ensures CollapseBlankRuns(Join([x] + ys, "\n")) == x + CollapseBlankRuns("\n" + Join(ys, "\n"))
  {
    JoinCons(x, ys, "\n");
    assert Join([x] + ys, "\n") == x + ("\n" + Join(ys, "\n"));
    forall i | 0 <= i < |x| ensures x[i] != '\n' {
      assert x[i] in x;
    }
    CollapsePrefix(x, "\n" + Join(ys, "\n"));
  }

  lemma JoinEmptyCons(x: string, tail: seq<string>)
    requires tail != []
    ensures Join([x, ""] + tail, "\n") == x + "\n\n" + Join(tail, "\n")
  {
    JoinCons("", tail, "\n");
    assert [x, ""] + tail == [x] + ([""] + tail);
    JoinCons(x, [""] + tail, "\n");
  }

  /** Joined parts with no "\n" inside them. */
  predicate NewlineFree(parts: seq<string>)
  {
    forall k :: 0 <= k < |parts| ==> '\n' !in parts[k]
  }

  lemma CollapseJoinMatch(x: string, ys: seq<string>)
    requires ys != [] && '\n' !in x && NewlineFree(ys)
    requires LeadingBlank(ys[..|ys| - 1]) >= 2
    requires var w := ys[LeadingBlank(ys[..|ys| - 1])..];
      w != [] && CollapseBlankRuns(Join(w, "\n")) == Join(CollapseParts(w), "\n")
    ensures CollapseBlankRuns(Join([x] + ys, "\n")) == Join(CollapseParts([x] + ys), "\n")
  {
    var w := ys[LeadingBlank(ys[..|ys| - 1])..];
    calc {
      CollapseBlankRuns(Join([x] + ys, "\n"));
    == { CollapseCons(x, ys); }
      x + CollapseBlankRuns("\n" + Join(ys, "\n"));
    == { CollapseNewline(ys); }
      x + ("\n\n" + CollapseBlankRuns(Join(w, "\n")));
    == { AppendAssoc(x, "\n\n", CollapseBlankRuns(Join(w, "\n"))); }
      x + "\n\n" + Join(CollapseParts(w), "\n");
    == { JoinEmptyCons(x, CollapseParts(w)); }
      Join([x, ""] + CollapseParts(w), "\n");
    == { CollapsePartsCons(x, ys); }
      Join(CollapseParts([x] + ys), "\n");
    }
  }

  lemma CollapseJoinKeep(x: string, ys: seq<string>)
    requires ys != [] && '\n' !in x && NewlineFree(ys)
    requires LeadingBlank(ys[..|ys| - 1]) < 2
    requires CollapseBlankRuns(Join(ys, "\n")) == Join(CollapseParts(ys), "\n")
    ensures CollapseBlankRuns(Join([x] + ys, "\n")) == Join(CollapseParts([x] + ys), "\n")
  {
    calc {
      CollapseBlankRuns(Join([x] + ys, "\n"));
    == { CollapseCons(x, ys); }
      x + CollapseBlankRuns("\n" + Join(ys, "\n"));
    == { CollapseNewline(ys); }
      x + ("\n" + CollapseBlankRuns(Join(ys, "\n")));
    ==
      x + ("\n" + Join(CollapseParts(ys), "\n"));
    == { AppendAssoc(x, "\n", Join(CollapseParts(ys), "\n")); JoinCons(x, CollapseParts(ys), "\n"); }
      Join([x] + CollapseParts(ys), "\n");
    == { CollapsePartsCons(x, ys); }
      Join(CollapseParts([x] + ys), "\n");
    }
  }

  /** The regular expression on a "\n"-join is `CollapseParts` on its parts. */
  lemma {:induction false} CollapseJoin(parts: seq<string>)
    requires parts != [] && NewlineFree(parts)
    ensures CollapseBlankRuns(Join(parts, "\n")) == Join(CollapseParts(parts), "\n")
    decreases |parts|
  {
    if |parts| > 1 {
      var x, ys := parts[0], parts[1..];
      assert parts == [x] + ys;
      assert NewlineFree(ys) by {
        forall k | 0 <= k < |ys| ensures '\n' !in ys[k] {
          assert ys[k] == parts[k + 1];
        }
      }
      var b := LeadingBlank(ys[..|ys| - 1]);
      if b >= 2 {
        var w := ys[b..];
        assert NewlineFree(w) by {
          forall k | 0 <= k < |w| ensures '\n' !in w[k] {
            assert w[k] == ys[k + b];
          }
        }
        CollapseJoin(w);
        CollapseJoinMatch(x, ys);
      } else {
        CollapseJoin(ys);
        CollapseJoinKeep(x, ys);
      }
    }
  }

  // ----- Empty lines at the ends -----

  /** Every line is empty. */
  predicate AllEmpty(lines: seq<string>)
  {
    forall k :: 0 <= k < |lines| ==> lines[k] == ""
  }

  lemma {:induction false} TrailingAllEmpty(lines: seq<string>)
    requires AllEmpty(lines)
    ensures DropTrailingEmpty(lines) == []
  {
    if lines != [] {
      var init := lines[..|lines| - 1];
      assert lines == init + [""];
      TrailingAllEmpty(init);
      DropTrailingSnoc(init);
    }
  }

  /** Dropping the empty lines at the end of `head + tail`. */
  lemma {:induction false} DropTrailingAppend(head: seq<string>, tail: seq<string>)
    ensures DropTrailingEmpty(head + tail) ==
      if DropTrailingEmpty(tail) == [] then DropTrailingEmpty(head) else head + DropTrailingEmpty(tail)
  {
    if tail == [] {
      assert head + tail == head;
    } else if tail[|tail| - 1] != "" {
      assert TrailingEmpty(tail) == 0 && tail[..|tail|] == tail;
      var l := head + tail;
      assert l[|l| - 1] != "";
      assert TrailingEmpty(l) == 0 && l[..|l|] == l;
    } else {
      var init := tail[..|tail| - 1];
      assert tail == init + [""];
      assert head + tail == (head + init) + [""];
      DropTrailingSnoc(init);
      DropTrailingSnoc(head + init);
      DropTrailingAppend(head, init);
    }
  }

  /** Lines that end the same way after dropping their empty last lines still do behind a common head. */
  lemma DropTrailingBehind(head: seq<string>, a: seq<string>, b: seq<string>)
    requires DropTrailingEmpty(a) == DropTrailingEmpty(b)
    ensures DropTrailingEmpty(head + a) == DropTrailingEmpty(head + b)
  {
    DropTrailingAppend(head, a);
    DropTrailingAppend(head, b);
  }

  /** An empty first line goes with the final strip. */
  lemma TrimConsEmpty(lines: seq<string>)
    ensures TrimEmpty([""] + lines) == TrimEmpty(lines)
  {
    var l := [""] + lines;
    assert l[1..] == lines;
    assert LeadingEmpty(l) == 1 + LeadingEmpty(lines);
    assert l[LeadingEmpty(l)..] == lines[LeadingEmpty(lines)..];
  }

  /** Lines with a first line that is not empty only lose empty lines at the end. */
  lemma TrimHeadKept(lines: seq<string>)
    requires lines != [] && lines[0] != ""
    ensures TrimEmpty(lines) == DropTrailingEmpty(lines)
  {
    assert LeadingEmpty(lines) == 0 && lines[0..] == lines;
  }

  lemma {:induction false} LeadingEmptySnoc(lines: seq<string>)
    requires LeadingEmpty(lines) < |lines|
    ensures LeadingEmpty(lines + [""]) == LeadingEmpty(lines)
  {
    var l := lines + [""];
    if lines[0] == "" {
      assert l[1..] == lines[1..] + [""];
      LeadingEmptySnoc(lines[1..]);
    } else {
      assert l[0] == lines[0];
    }
  }

  lemma {:induction false} LeadingAllEmpty(lines: seq<string>)
    requires LeadingEmpty(lines) == |lines|
    ensures AllEmpty(lines)
  {
    if lines != [] {
      LeadingAllEmpty(lines[1..]);
      forall k | 0 <= k < |lines| ensures lines[k] == "" {
        if k > 0 {
          assert lines[k] == lines[1..][k - 1];
        }
      }
    }
  }

  /** An empty last line goes with the final strip. */
  lemma TrimSnocEmpty(lines: seq<string>)
    ensures TrimEmpty(lines + [""]) == TrimEmpty(lines)
  {
    var l := lines + [""];
    var e := LeadingEmpty(lines);
    if e < |lines| {
      LeadingEmptySnoc(lines);
      assert l[e..] == lines[e..] + [""];
      DropTrailingSnoc(lines[e..]);
    } else {
      LeadingAllEmpty(lines);
      assert AllEmpty(l);
      TrailingAllEmpty(l[LeadingEmpty(l)..]);
      assert lines[e..] == [];
    }
  }

  // ----- Squeezing runs of empty lines -----

  lemma SqueezeCons(x: string, rest: seq<string>)
    requires rest != []
    ensures SqueezeBlank([x] + rest) ==
      if x == "" && rest[0] == "" then SqueezeBlank(rest) else [x] + SqueezeBlank(rest)
  {
    assert ([x] + rest)[1..] == rest;
  }

  lemma {:induction false} SqueezeSnoc(lines: seq<string>, y: string)
    ensures SqueezeBlank(lines + [y]) ==
      if lines != [] && lines[|lines| - 1] == "" && y == "" then SqueezeBlank(lines)
      else SqueezeBlank(lines) + [y]
  {
    if |lines| == 1 {
      SqueezeCons(lines[0], [y]);
      assert lines + [y] == [lines[0]] + [y];
    } else if |lines| > 1 {
      var rest := lines[1..];
      assert lines == [lines[0]] + rest;
      assert lines + [y] == [lines[0]] + (rest + [y]);
      SqueezeCons(lines[0], rest + [y]);
      SqueezeCons(lines[0], rest);
      SqueezeSnoc(rest, y);
    }
  }

  /** An empty last line goes with the final strip, squeezed or not. */
  lemma TrimSqueezeSnocEmpty(lines: seq<string>)
    ensures TrimEmpty(SqueezeBlank(lines + [""])) == TrimEmpty(SqueezeBlank(lines))
  {
    SqueezeSnoc(lines, "");
    TrimSnocEmpty(SqueezeBlank(lines));
  }

  lemma {:induction false} SqueezeAllEmpty(lines: seq<string>)
    requires lines != [] && AllEmpty(lines)
    ensures SqueezeBlank(lines) == [""]
  {
    if |lines| > 1 {
      SqueezeCons(lines[0], lines[1..]);
      assert lines == [lines[0]] + lines[1..];
      SqueezeAllEmpty(lines[1..]);
    }
  }

  /** A run of `b` empty lines before a line that is not empty squeezes to one. */
  lemma {:induction false} SqueezeRun(lines: seq<string>, b: nat)
    requires 1 <= b < |lines| && lines[b] != ""
    requires forall k :: 0 <= k < b ==> lines[k] == ""
    ensures SqueezeBlank(lines) == [""] + SqueezeBlank(lines[b..])
  {
    var rest := lines[1..];
    assert lines == [lines[0]] + rest;
    SqueezeCons(lines[0], rest);
    if b == 1 {
      assert rest == lines[b..];
    } else {
      SqueezeRun(rest, b - 1);
      assert rest[b - 1..] == lines[b..];
    }
  }

  /** Empty lines at the head go with the final strip, squeezed or not. */
  lemma {:induction false} TrimSqueezeDrop(lines: seq<string>, b: nat)
    requires b < |lines|
    requires forall k :: 0 <= k < b ==> lines[k] == ""
    ensures TrimEmpty(SqueezeBlank(lines)) == TrimEmpty(SqueezeBlank(lines[b..]))
  {
    if b == 0 {
      assert lines[b..] == lines;
    } else {
      var rest := lines[1..];
      assert lines == [""] + rest;
      SqueezeCons("", rest);
      TrimConsEmpty(SqueezeBlank(rest));
      TrimSqueezeDrop(rest, b - 1);
      assert rest[b - 1..] == lines[b..];
    }
  }

  // ----- The parts collapse and the squeeze agree once the ends are stripped -----

  /** Every all-whitespace line is empty, as after a per-line strip. */
  predicate EmptyIsBlank(lines: seq<string>)
  {
    forall k :: 0 <= k < |lines| && Blank(lines[k]) ==> lines[k] == ""
  }

  lemma EmptyIsBlankDrop(lines: seq<string>, i: nat)
    requires EmptyIsBlank(lines) && i <= |lines|
    ensures EmptyIsBlank(lines[i..])
  {
    forall k | 0 <= k < |lines| - i && Blank(lines[i..][k]) ensures lines[i..][k] == "" {
      assert lines[i..][k] == lines[i + k];
    }
  }

  /** On such lines the leading blank parts are empty lines and the one after them is not. */
  lemma LeadingBlankEmpty(rest: seq<string>)
    requires rest != [] && EmptyIsBlank(rest)
    ensures var b := LeadingBlank(rest[..|rest| - 1]);
      && (forall k :: 0 <= k < b ==> rest[k] == "")
      && (b < |rest| - 1 ==> rest[b] != "")
  {
    var init := rest[..|rest| - 1];
    var b := LeadingBlank(init);
    forall k | 0 <= k < b ensures rest[k] == "" {
      assert init[k] == rest[k];
    }
    if b < |rest| - 1 {
      assert init[b] == rest[b];
      assert Blank("");
    }
  }

  /** A kept line, then a run of empty lines up to the last line, which is empty too. */
  lemma SqueezeToEnd(x: string, rest: seq<string>)
    requires x != "" && rest != [] && AllEmpty(rest)
    ensures DropTrailingEmpty(SqueezeBlank([x] + rest)) == [x]
  {
    SqueezeCons(x, rest);
    SqueezeAllEmpty(rest);
    TrailingAllEmpty([""]);
    DropTrailingAppend([x], [""]);
    assert [x][..1] == [x];
  }

  /** A kept line, then a run of empty lines before a line that is not empty. */
  lemma SqueezeAfterKept(x: string, rest: seq<string>, b: nat)
    requires x != "" && 1 <= b < |rest| && rest[b] != ""
    requires forall k :: 0 <= k < b ==> rest[k] == ""
    ensures SqueezeBlank([x] + rest) == [x, ""] + SqueezeBlank(rest[b..])
  {
    SqueezeCons(x, rest);
    SqueezeRun(rest, b);
    ConsPair(x, "", SqueezeBlank(rest[b..]));
  }

  lemma ConsPair(x: string, y: string, tail: seq<string>)
    ensures [x] + ([y] + tail) == [x, y] + tail
  {
  }

  /** Blank parts up to an empty one: they run to the end. */
  lemma BlankToEnd(rest: seq<string>)
    requires rest != [] && EmptyIsBlank(rest)
    requires rest[LeadingBlank(rest[..|rest| - 1])] == ""
    ensures LeadingBlank(rest[..|rest| - 1]) == |rest| - 1 && AllEmpty(rest)
  {
    LeadingBlankEmpty(rest);
  }

  /** Two or more blank parts that run to the end, the last one empty, collapse to one. */
  lemma CollapseToEnd(x: string, rest: seq<string>)
    requires |rest| >= 3 && rest[|rest| - 1] == ""
    requires LeadingBlank(rest[..|rest| - 1]) == |rest| - 1
    ensures CollapseParts([x] + rest) == [x] + ["", ""]
  {
    var w := rest[|rest| - 1..];
    assert w == [""];
    CollapsePartsCons(x, rest);
    assert [x, ""] + [""] == [x] + ["", ""];
  }

  lemma DropTwoEmpty(x: string)
    requires x != ""
    ensures DropTrailingEmpty([x] + ["", ""]) == [x]
  {
    TrailingAllEmpty(["", ""]);
    DropTrailingAppend([x], ["", ""]);
    assert [x][..1] == [x];
  }

  /** Two or more blank parts after a kept line that run to the end: both leave the kept line. */
  lemma DropMatchToEnd(x: string, rest: seq<string>)
    requires x != "" && rest != [] && EmptyIsBlank(rest)
    requires var b := LeadingBlank(rest[..|rest| - 1]); b >= 2 && rest[b] == ""
    ensures DropTrailingEmpty(CollapseParts([x] + rest)) == DropTrailingEmpty(SqueezeBlank([x] + rest))
  {
    BlankToEnd(rest);
    SqueezeToEnd(x, rest);
    CollapseToEnd(x, rest);
    DropTwoEmpty(x);
  }

  /** Two or more blank parts after a kept line and before another: both keep one empty line. */
  lemma DropMatch(x: string, rest: seq<string>)
    requires x != "" && rest != [] && EmptyIsBlank(rest)
    requires var b := LeadingBlank(rest[..|rest| - 1]); b >= 2 && rest[b] != ""
    requires var w := rest[LeadingBlank(rest[..|rest| - 1])..];
      DropTrailingEmpty(CollapseParts(w)) == DropTrailingEmpty(SqueezeBlank(w))
    ensures DropTrailingEmpty(CollapseParts([x] + rest)) == DropTrailingEmpty(SqueezeBlank([x] + rest))
  {
    var b := LeadingBlank(rest[..|rest| - 1]);
    var w := rest[b..];
    LeadingBlankEmpty(rest);
    SqueezeAfterKept(x, rest, b);
    CollapsePartsCons(x, rest);
    DropTrailingBehind([x, ""], CollapseParts(w), SqueezeBlank(w));
  }

  /** Behind a first line that is not empty, the two collapses differ only in empty lines at the end. */
  lemma {:induction false} DropCollapse(lines: seq<string>)
    requires EmptyIsBlank(lines) && (lines == [] || lines[0] != "")
    ensures DropTrailingEmpty(CollapseParts(lines)) == DropTrailingEmpty(SqueezeBlank(lines))
    decreases |lines|, 1
  {
    if |lines| > 1 {
      var x, rest := lines[0], lines[1..];
      assert lines == [x] + rest;
      EmptyIsBlankDrop(lines, 1);
      var b := LeadingBlank(rest[..|rest| - 1]);
      if b >= 2 {
        if rest[b] == "" {
          DropMatchToEnd(x, rest);
        } else {
          EmptyIsBlankDrop(rest, b);
          DropCollapse(rest[b..]);
          DropMatch(x, rest);
        }
      } else {
        CollapsePartsCons(x, rest);
        SqueezeCons(x, rest);
        DropRest(rest);
        DropTrailingBehind([x], CollapseParts(rest), SqueezeBlank(rest));
      }
    }
  }

  /** The lines after a kept line, when at most one blank part opens them. */
  lemma {:induction false} DropRest(rest: seq<string>)
    requires rest != [] && EmptyIsBlank(rest)
    requires LeadingBlank(rest[..|rest| - 1]) < 2
    ensures DropTrailingEmpty(CollapseParts(rest)) == DropTrailingEmpty(SqueezeBlank(rest))
    decreases |rest|, 2
  {
    LeadingBlankEmpty(rest);
    if rest[0] != "" {
      DropCollapse(rest);
    } else if |rest| > 1 {
      var r := rest[1..];
      assert rest == [""] + r;
      EmptyIsBlankDrop(rest, 1);
      if r[0] == "" {
        assert |rest| == 2;
        assert CollapseParts(rest) == [""] + CollapseParts(r) by {
          CollapsePartsCons("", r);
        }
        SqueezeCons("", r);
        assert AllEmpty(CollapseParts(rest));
        TrailingAllEmpty(CollapseParts(rest));
        TrailingAllEmpty(SqueezeBlank(rest));
      } else {
        assert !Blank(r[0]);
        CollapsePartsCons("", r);
        assert |r| > 1 ==> r[..|r| - 1][0] == r[0];
        SqueezeCons("", r);
        DropCollapse(r);
        DropTrailingBehind([""], CollapseParts(r), SqueezeBlank(r));
      }
    }
  }

  /** A first line that is not empty stays, and only empty lines at the end go. */
  lemma TrimKeptHead(lines: seq<string>)
    requires |lines| > 1 && lines[0] != "" && EmptyIsBlank(lines)
    ensures TrimEmpty(CollapseParts(lines)) == TrimEmpty(SqueezeBlank(lines))
  {
    DropCollapse(lines);
    SqueezeCons(lines[0], lines[1..]);
    assert lines == [lines[0]] + lines[1..];
    TrimHeadKept(CollapseParts(lines));
    TrimHeadKept(SqueezeBlank(lines));
  }

  lemma TrimTwoEmpty(lines: seq<string>)
    ensures TrimEmpty(["", ""] + lines) == TrimEmpty(lines)
  {
    assert ["", ""] + lines == [""] + ([""] + lines);
    TrimConsEmpty([""] + lines);
    TrimConsEmpty(lines);
  }

  /** An empty line, then `b` more, squeeze away under the final strip. */
  lemma SqueezeEmptyHead(lines: seq<string>, b: nat)
    requires 1 + b < |lines| && lines[0] == ""
    requires forall k :: 0 <= k < b ==> lines[1..][k] == ""
    ensures TrimEmpty(SqueezeBlank(lines)) == TrimEmpty(SqueezeBlank(lines[1..][b..]))
  {
    forall k | 0 <= k < 1 + b ensures lines[k] == "" {
      if k > 0 {
        assert lines[k] == lines[1..][k - 1];
      }
    }
    TrimSqueezeDrop(lines, 1 + b);
    assert lines[1 + b..] == lines[1..][b..];
  }

  lemma TrimTwoEmptyAt(a: seq<string>, c: seq<string>)
    requires a == ["", ""] + c
    ensures TrimEmpty(a) == TrimEmpty(c)
  {
    TrimTwoEmpty(c);
  }

  /** The parts after the first one and the blank parts that follow it. */
  function AfterRun(lines: seq<string>): (w: seq<string>)
    requires |lines| > 1
    ensures |w| < |lines|
  {
    var rest := lines[1..];
    rest[LeadingBlank(rest[..|rest| - 1])..]
  }

  /** An empty line followed by a blank run: the run becomes one empty line. */
  lemma CollapseMatchParts(lines: seq<string>)
    requires |lines| > 1 && lines[0] == ""
    requires var rest := lines[1..]; LeadingBlank(rest[..|rest| - 1]) >= 2
    ensures CollapseParts(lines) == ["", ""] + CollapseParts(AfterRun(lines))
  {
  }

  lemma CollapseMatchHead(lines: seq<string>)
    requires |lines| > 1 && lines[0] == ""
    requires var rest := lines[1..]; LeadingBlank(rest[..|rest| - 1]) >= 2
    ensures TrimEmpty(CollapseParts(lines)) == TrimEmpty(CollapseParts(AfterRun(lines)))
  {
    CollapseMatchParts(lines);
    TrimTwoEmptyAt(CollapseParts(lines), CollapseParts(AfterRun(lines)));
  }

  lemma SqueezeMatchHead(lines: seq<string>)
    requires |lines| > 1 && lines[0] == "" && EmptyIsBlank(lines)
    ensures TrimEmpty(SqueezeBlank(lines)) == TrimEmpty(SqueezeBlank(AfterRun(lines)))
  {
    var rest := lines[1..];
    EmptyIsBlankDrop(lines, 1);
    LeadingBlankEmpty(rest);
    SqueezeEmptyHead(lines, LeadingBlank(rest[..|rest| - 1]));
  }

  /** An empty first line and two or more blank parts after it go with the final strip. */
  lemma TrimMatchHead(lines: seq<string>)
    requires |lines| > 1 && lines[0] == "" && EmptyIsBlank(lines)
    requires var rest := lines[1..]; LeadingBlank(rest[..|rest| - 1]) >= 2
    requires TrimEmpty(CollapseParts(AfterRun(lines))) == TrimEmpty(SqueezeBlank(AfterRun(lines)))
    ensures TrimEmpty(CollapseParts(lines)) == TrimEmpty(SqueezeBlank(lines))
  {
    CollapseMatchHead(lines);
    SqueezeMatchHead(lines);
  }

  /** An empty first line with at most one blank part after it goes with the final strip. */
  lemma TrimSkipHead(lines: seq<string>)
    requires |lines| > 1 && lines[0] == ""
    requires var rest := lines[1..]; LeadingBlank(rest[..|rest| - 1]) < 2
    requires var rest := lines[1..]; TrimEmpty(CollapseParts(rest)) == TrimEmpty(SqueezeBlank(rest))
    ensures TrimEmpty(CollapseParts(lines)) == TrimEmpty(SqueezeBlank(lines))
  {
    var rest := lines[1..];
    assert lines == [""] + rest;
    CollapsePartsCons("", rest);
    TrimConsEmpty(CollapseParts(rest));
    TrimSqueezeDrop(lines, 1);
  }

  /** After the final strip, the collapse of the parts and the squeeze of the lines agree. */
  lemma {:induction false} TrimCollapse(lines: seq<string>)
    requires EmptyIsBlank(lines)
    ensures TrimEmpty(CollapseParts(lines)) == TrimEmpty(SqueezeBlank(lines))
    decreases |lines|
  {
    if |lines| > 1 {
      if lines[0] != "" {
        TrimKeptHead(lines);
      } else {
        var rest := lines[1..];
        EmptyIsBlankDrop(lines, 1);
        var b := LeadingBlank(rest[..|rest| - 1]);
        if b >= 2 {
          EmptyIsBlankDrop(rest, b);
          TrimCollapse(rest[b..]);
          TrimMatchHead(lines);
        } else {
          TrimCollapse(rest);
          TrimSkipHead(lines);
        }
      }
    }
  }

  // ----- The per-line strip -----

  lemma {:induction false} TrimLeftEmpty(s: string)
    ensures TrimLeft(s) == [] <==> Blank(s)
  {
    if s != [] && IsSpace(s[0]) {
      TrimLeftEmpty(s[1..]);
      assert Blank(s) <==> Blank(s[1..]) by {
        if Blank(s[1..]) {
          forall i | 0 <= i < |s| ensures IsSpace(s[i]) {
            if i > 0 {
              assert s[i] == s[1..][i - 1];
            }
          }
        }
      }
    }
  }

  lemma {:induction false} TrimRightEmpty(s: string)
    ensures TrimRight(s) == [] <==> Blank(s)
  {
    if s != [] && IsSpace(s[|s| - 1]) {
      var init := s[..|s| - 1];
      TrimRightEmpty(init);
      assert Blank(s) <==> Blank(init) by {
        if Blank(init) {
          forall i | 0 <= i < |s| ensures IsSpace(s[i]) {
            if i < |s| - 1 {
              assert s[i] == init[i];
            }
          }
        }
      }
    }
  }

  /** `p.strip()` is empty exactly when `p` is all whitespace. */
  lemma BlankStrip(p: string)
    ensures Strip(p) == "" <==> Blank(p)
  {
    var l := TrimLeft(p);
    TrimLeftEmpty(p);
    TrimRightEmpty(l);
  }

  /** A stripped line is all whitespace only when it is empty. */
  lemma StrippedBlank(z: string)
    requires IsStripped(z)
    ensures Blank(z) <==> z == ""
  {
  }

  lemma StripAllAppend(a: seq<string>, b: seq<string>)
    ensures StripAll(a + b) == StripAll(a) + StripAll(b)
  {
    var l, r := StripAll(a + b), StripAll(a) + StripAll(b);
    forall k | 0 <= k < |l| ensures l[k] == r[k] {
      if k < |a| {
        assert (a + b)[k] == a[k];
        assert r[k] == StripAll(a)[k];
      } else {
        assert (a + b)[k] == b[k - |a|];
        assert r[k] == StripAll(b)[k - |a|];
      }
    }
    assert l == r;
  }

  lemma StripAllSlice(lines: seq<string>, i: nat, j: nat)
    requires i <= j <= |lines|
    ensures StripAll(lines[i..j]) == StripAll(lines)[i..j]
  {
    var l, r := StripAll(lines[i..j]), StripAll(lines)[i..j];
    forall k | 0 <= k < |l| ensures l[k] == r[k] {
      assert lines[i..j][k] == lines[i + k];
    }
  }

  lemma {:induction false} LeadingBlankStrip(lines: seq<string>)
    ensures LeadingBlank(StripAll(lines)) == LeadingBlank(lines)
  {
    if lines != [] {
      var z := Strip(lines[0]);
      BlankStrip(lines[0]);
      StrippedBlank(z);
      StripAllSlice(lines, 1, |lines|);
      assert lines[1..|lines|] == lines[1..];
      assert StripAll(lines)[1..|lines|] == StripAll(lines)[1..];
      LeadingBlankStrip(lines[1..]);
    }
  }

  lemma StripAllCons(x: string, rest: seq<string>)
    ensures StripAll([x] + rest) == [Strip(x)] + StripAll(rest)
  {
    StripAllAppend([x], rest);
  }

  lemma StripRunLength(rest: seq<string>)
    requires rest != []
    ensures LeadingBlank(StripAll(rest)[..|rest| - 1]) == LeadingBlank(rest[..|rest| - 1])
  {
    StripAllSlice(rest, 0, |rest| - 1);
    assert rest[0..|rest| - 1] == rest[..|rest| - 1];
    assert StripAll(rest)[0..|rest| - 1] == StripAll(rest)[..|rest| - 1];
    LeadingBlankStrip(rest[..|rest| - 1]);
  }

  lemma StripAllSuffix(rest: seq<string>, b: nat)
    requires b <= |rest|
    ensures StripAll(rest[b..]) == StripAll(rest)[b..]
  {
    StripAllSlice(rest, b, |rest|);
    assert rest[b..|rest|] == rest[b..];
    assert StripAll(rest)[b..|rest|] == StripAll(rest)[b..];
  }

  lemma StripAllPair(x: string, tail: seq<string>)
    ensures StripAll([x, ""] + tail) == [Strip(x), ""] + StripAll(tail)
  {
    StripAllAppend([x, ""], tail);
    assert StripAll([x, ""]) == [Strip(x), ""] by {
      assert TrimLeft("") == "";
    }
  }

  /** Stripping every part commutes with collapsing the parts. */
  lemma {:induction false} CollapseStripAll(parts: seq<string>)
    ensures StripAll(CollapseParts(parts)) == CollapseParts(StripAll(parts))
    decreases |parts|
  {
    if |parts| > 1 {
      var x, rest := parts[0], parts[1..];
      var srest := StripAll(rest);
      assert parts == [x] + rest;
      StripAllCons(x, rest);
      CollapsePartsCons(x, rest);
      CollapsePartsCons(Strip(x), srest);
      StripRunLength(rest);
      var b := LeadingBlank(rest[..|rest| - 1]);
      if b >= 2 {
        CollapseStripAll(rest[b..]);
        StripAllSuffix(rest, b);
        StripAllPair(x, CollapseParts(rest[b..]));
      } else {
        CollapseStripAll(rest);
        StripAllCons(x, CollapseParts(rest));
      }
    }
  }

  lemma StripAllEmptyIsBlank(parts: seq<string>)
    ensures EmptyIsBlank(StripAll(parts))
  {
    var z := StripAll(parts);
    forall k | 0 <= k < |z| && Blank(z[k]) ensures z[k] == "" {
      StrippedBlank(z[k]);
    }
  }

  /** An empty last part goes with the final strip. */
  lemma TrimStripDropLast(parts: seq<string>)
    ensures TrimEmpty(StripAll(DropLastEmpty(parts))) == TrimEmpty(StripAll(parts))
  {
    if parts != [] && parts[|parts| - 1] == "" {
      var init := parts[..|parts| - 1];
      assert parts == init + [""];
      StripAllAppend(init, [""]);
      assert StripAll([""]) == [""] by {
        assert TrimLeft("") == "";
      }
      TrimSnocEmpty(StripAll(init));
    }
  }

  /** An empty last part goes with the final strip, squeezed or not. */
  lemma TrimSqueezeDropLast(parts: seq<string>)
    ensures TrimEmpty(SqueezeBlank(StripAll(DropLastEmpty(parts)))) == TrimEmpty(SqueezeBlank(StripAll(parts)))
  {
    if parts != [] && parts[|parts| - 1] == "" {
      var init := parts[..|parts| - 1];
      assert parts == init + [""];
      StripAllAppend(init, [""]);
      assert StripAll([""]) == [""] by {
        assert TrimLeft("") == "";
      }
      TrimSqueezeSnocEmpty(StripAll(init));
    }
  }

  // ----- The two versions -----

  /** The code as written, on the parts of the normalised text. */
  lemma AsWrittenParts(t: string)
    requires PlainBreaks(t)
    ensures var parts := SplitNewlines(Normalize(t));
      CleanAnswerTextAsWritten(t) == Join(TrimEmpty(StripAll(CollapseParts(parts))), "\n")
  {
    var u := Normalize(t);
    NormalizeOnlyNewlines(t);
    var parts := SplitNewlines(u);
    SplitNewlinesNoBreak(u);
    CollapseJoin(parts);
    CollapsePartsNoBreak(parts);
    var c := CollapseParts(parts);
    SplitJoin(c);
    SplitStripClean(CollapseBlankRuns(u));
    StripJoin(StripAll(DropLastEmpty(c)));
    TrimStripDropLast(c);
  }

  /** The corrected version, on the parts of the normalised text. */
  lemma CleanParts(t: string)
    requires PlainBreaks(t)
    ensures var parts := SplitNewlines(Normalize(t));
      CleanAnswerText(t) == Join(TrimEmpty(SqueezeBlank(StripAll(parts))), "\n")
  {
    var u := Normalize(t);
    NormalizeOnlyNewlines(t);
    var parts := SplitNewlines(u);
    SplitNewlinesNoBreak(u);
    SplitJoin(parts);
    var lines := StripAll(DropLastEmpty(parts));
    SplitStripClean(u);
    SqueezeClean(lines);
    StripJoin(SqueezeBlank(lines));
    TrimSqueezeDropLast(parts);
  }

  /**
   * On a text whose line breaks are all "\n" or "\r", the code as
   * written and the corrected clean give the same text.
   */
  lemma CleanAgrees(t: string)
    requires forall i :: 0 <= i < |t| && IsLineBreak(t[i]) ==> t[i] in "\n\r"
    ensures CleanAnswerText(t) == CleanAnswerTextAsWritten(t)
  {
    assert PlainBreaks(t);
    var parts := SplitNewlines(Normalize(t));
    AsWrittenParts(t);
    CleanParts(t);
    CollapseStripAll(parts);
    StripAllEmptyIsBlank(parts);
    TrimCollapse(StripAll(parts));
  }
}
