/**
 * The few operations of Python's `str` the pipeline relies on, over
 * sequences of Unicode scalar values: `isspace`, `strip()`, `strip(c)`,
 * `startswith`, `splitlines()` and `sep.join(...)`.
 */
module PyStr {

  /** `c.isspace()`: the characters `str.strip()` and the regex class `\s` remove. */
  predicate IsSpace(c: char)
  {
    c == ' ' || ('\t' <= c <= '\r') || ('\U{1C}' <= c <= '\U{1F}') ||
    c == '\U{85}' || c == '\U{A0}' || c == '\U{1680}' ||
    ('\U{2000}' <= c <= '\U{200A}') || c == '\U{2028}' || c == '\U{2029}' ||
    c == '\U{202F}' || c == '\U{205F}' || c == '\U{3000}'
  }

  /** The line boundaries of `str.splitlines()`; `"\r\n"` counts as one. */
  predicate IsLineBreak(c: char)
  {
    ('\n' <= c <= '\r') || ('\U{1C}' <= c <= '\U{1E}') ||
    c == '\U{85}' || c == '\U{2028}' || c == '\U{2029}'
  }

  predicate NoLineBreak(s: string)
  {
    forall i :: 0 <= i < |s| ==> !IsLineBreak(s[i])
  }

  /** No leading and no trailing whitespace. */
  predicate IsStripped(s: string)
  {
    s == [] || (!IsSpace(s[0]) && !IsSpace(s[|s| - 1]))
  }

  predicate StartsWith(s: string, prefix: string)
  {
    |prefix| <= |s| && s[..|prefix|] == prefix
  }

  /** `str.lstrip()`: drops the leading whitespace. */
  function TrimLeft(s: string): (r: string)
    ensures |r| <= |s| && (r != [] ==> r[|r| - 1] == s[|s| - 1])
    ensures r == [] || !IsSpace(r[0])
  {
    if s != [] && IsSpace(s[0]) then TrimLeft(s[1..]) else s
  }

  /** `str.rstrip()`: drops the trailing whitespace. */
  function TrimRight(s: string): (r: string)
    ensures |r| <= |s| && (r != [] ==> r[0] == s[0])
    ensures r == [] || !IsSpace(r[|r| - 1])
  {
    if s != [] && IsSpace(s[|s| - 1]) then TrimRight(s[..|s| - 1]) else s
  }

  /** What `lstrip` keeps is a suffix of its input. */
  lemma {:induction false} TrimLeftSuffix(s: string)
    ensures TrimLeft(s) == s[|s| - |TrimLeft(s)|..]
  {
    if s != [] && IsSpace(s[0]) {
      TrimLeftSuffix(s[1..]);
    }
  }

  /** What `rstrip` keeps is a prefix of its input. */
  lemma {:induction false} TrimRightPrefix(s: string)
    ensures TrimRight(s) == s[..|TrimRight(s)|]
  {
    if s != [] && IsSpace(s[|s| - 1]) {
      TrimRightPrefix(s[..|s| - 1]);
    }
  }

  /** `str.strip()`. */
  function Strip(s: string): (r: string)
    ensures IsStripped(r)
  {
    TrimRight(TrimLeft(s))
  }

  /** `str.strip(c)` for a single character `c`: drops every `c` at both ends. */
  function StripChar(s: string, c: char): (r: string)
    ensures |r| <= |s|
    ensures r == [] || (r[0] != c && r[|r| - 1] != c)
  {
    if s != [] && s[0] == c then StripChar(s[1..], c)
    else if s != [] && s[|s| - 1] == c then StripChar(s[..|s| - 1], c)
    else s
  }

  /** Index of the first line boundary of `s`, or `|s|` if there is none. */
  function LineEnd(s: string): (j: nat)
    ensures j <= |s| && NoLineBreak(s[..j])
    ensures j < |s| ==> IsLineBreak(s[j])
  {
    if s == [] || IsLineBreak(s[0]) then 0 else 1 + LineEnd(s[1..])
  }

  /**
   * `str.splitlines()`: the lines of `s` without their boundaries; a
   * boundary at the very end does not open an empty last line.
   */
  function SplitLines(s: string): (lines: seq<string>)
    ensures forall k :: 0 <= k < |lines| ==> NoLineBreak(lines[k])
    ensures |lines| <= |s|
    decreases |s|
  {
    if s == [] then []
    else
      var j := LineEnd(s);
      if j == |s| then [s]
      else
        var next := if s[j] == '\r' && j + 1 < |s| && s[j + 1] == '\n' then j + 2 else j + 1;
        [s[..j]] + SplitLines(s[next..])
  }

  /** `sep.join(parts)`. */
  function Join(parts: seq<string>, sep: string): string
  {
    if |parts| == 0 then ""
    else if |parts| == 1 then parts[0]
    else parts[0] + sep + Join(parts[1..], sep)
  }

  lemma {:induction false} JoinSnoc(parts: seq<string>, x: string, sep: string)
    requires parts != []
    ensures Join(parts + [x], sep) == Join(parts, sep) + sep + x
  {
    if |parts| > 1 {
      assert (parts + [x])[1..] == parts[1..] + [x];
      JoinSnoc(parts[1..], x, sep);
    }
  }

  lemma {:induction false} LineEndAt(x: string, t: string)
    requires NoLineBreak(x)
    requires t != [] && IsLineBreak(t[0])
    ensures LineEnd(x + t) == |x|
  {
    if x != [] {
      assert (x + t)[1..] == x[1..] + t;
      LineEndAt(x[1..], t);
    }
  }

  lemma {:induction false} LineEndNone(x: string)
    requires NoLineBreak(x)
    ensures LineEnd(x) == |x|
  {
    if x != [] {
      LineEndNone(x[1..]);
    }
  }

  /**
   * Round trip: splitting a join of lines that hold no boundary, with one
   * boundary character other than "\r" as separator, gives the lines back,
   * unless the last line is empty (a trailing boundary opens no line).
   */
  lemma {:induction false} SplitJoinedLines(lines: seq<string>, sep: char)
    requires IsLineBreak(sep) && sep != '\r'
    requires forall k :: 0 <= k < |lines| ==> NoLineBreak(lines[k])
    requires lines == [] || lines[|lines| - 1] != ""
    ensures SplitLines(Join(lines, [sep])) == lines
  {
    if |lines| == 1 {
      LineEndNone(lines[0]);
    } else if |lines| > 1 {
      var x, rest := lines[0], Join(lines[1..], [sep]);
      var s := x + [sep] + rest;
      LineEndAt(x, [sep] + rest);
      assert x + ([sep] + rest) == s;
      assert s[..|x|] == x;
      assert s[|x| + 1..] == rest;
      SplitJoinedLines(lines[1..], sep);
    }
  }
}
