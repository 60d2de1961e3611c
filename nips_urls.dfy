/**
 * `NIPSGitHubFetcher.parse_nips_urls`: reads the URL list out of the text of
 * a Python file holding
 *
 *     NIPS_URLS = [
 *         "https://...",
 *         ...
 *     ]
 *
 * line by line. Every line is stripped; the first line starting with
 * "NIPS_URLS" and containing "=" opens the list, a line starting with "]"
 * inside the list ends the scan, and inside the list every line starting
 * with a quote is a URL once ",", "'" and '"' are trimmed from its ends.
 * An empty result is an error.
 */
module NipsUrls {
  import opened Types
  import opened PyStr

  const NoUrlsMessage: string := "No URLs found in NIPS_URLS list!"

  /** The line that opens the list. */
  predicate IsHeader(line: string)
  {
    StartsWith(line, "NIPS_URLS") && '=' in line
  }

  /** The line that closes the list. */
  predicate IsClose(line: string)
  {
    StartsWith(line, "]")
  }

  predicate IsQuoted(line: string)
  {
    StartsWith(line, "\"") || StartsWith(line, "'")
  }

  /** `line.strip(",").strip("'").strip('"')`. */
  function CleanUrl(line: string): string
  {
    StripChar(StripChar(StripChar(line, ','), '\''), '"')
  }

  /**
   * The URLs collected from `lines` when the scan starts inside the list
   * (`inside`) or before it. The header test comes first, so a header line
   * is never collected and always (re)opens the list.
   */
  function Scan(lines: seq<string>, inside: bool): (urls: seq<string>)
    ensures |urls| <= |lines|
  {
    if lines == [] then []
    else
      var line := Strip(lines[0]);
      if IsHeader(line) then Scan(lines[1..], true)
      else if inside && IsClose(line) then []
      else if inside && IsQuoted(line) then [CleanUrl(line)] + Scan(lines[1..], inside)
      else Scan(lines[1..], inside)
  }

  /** What `parse_nips_urls` returns for a file's text: the URLs, or the error when there are none. */
  function ParseResult(content: string): (r: Result<seq<string>, string>)
    ensures r.Ok? ==> r.value != []
    ensures r.Err? ==> r.error == NoUrlsMessage
  {
    var urls := Scan(SplitLines(content), false);
    if urls == [] then Err(NoUrlsMessage) else Ok(urls)
  }

  /** `parse_nips_urls`. */
  method ParseNipsUrls(fileContent: string) returns (r: Result<seq<string>, string>)
    ensures r == ParseResult(fileContent)
    ensures r.Ok? ==> 0 < |r.value| <= |fileContent|
  {
    var lines := SplitLines(fileContent);
    var urls: seq<string> := [];
    var insideUrlsList := false;
    var i := 0;
    while i < |lines|
      invariant 0 <= i <= |lines|
      invariant urls + Scan(lines[i..], insideUrlsList) == Scan(lines, false)
    {
      assert lines[i..][1..] == lines[i + 1..];
      var line := Strip(lines[i]);
      if IsHeader(line) {
        insideUrlsList := true;
        i := i + 1;
        continue;
      }
      if insideUrlsList {
        if IsClose(line) {
          assert lines[i..][0] == lines[i];
          assert Scan(lines[i..], insideUrlsList) == [];
          assert urls + [] == urls;
          break;
        }
        if IsQuoted(line) {
          var url := CleanUrl(line);
          assert Scan(lines[i..], insideUrlsList) == [url] + Scan(lines[i + 1..], insideUrlsList);
          AppendAssoc(urls, [url], Scan(lines[i + 1..], insideUrlsList));
          urls := urls + [url];
        }
      }
      i := i + 1;
    }
    if i == |lines| {
      assert lines[i..] == [];
      assert urls + [] == urls;
    }
    assert urls == Scan(lines, false);
    if urls == [] {
      return Err(NoUrlsMessage);
    }
    return Ok(urls);
  }

  /** Before the list is opened, a line without the header contributes nothing. */
  predicate NoHeader(lines: seq<string>)
  {
    forall j :: 0 <= j < |lines| ==> !IsHeader(Strip(lines[j]))
  }

  lemma NoHeaderTail(lines: seq<string>)
    requires lines != [] && NoHeader(lines)
    ensures NoHeader(lines[1..])
  {
    forall j | 0 <= j < |lines| - 1
      ensures !IsHeader(Strip(lines[1..][j]))
    {
      assert lines[1..][j] == lines[j + 1];
    }
  }

  /** Everything up to and including the first header line contributes no URL. */
  lemma {:induction false} ScanSkipsToHeader(lines: seq<string>, h: nat)
    requires h < |lines| && NoHeader(lines[..h]) && IsHeader(Strip(lines[h]))
    ensures Scan(lines, false) == Scan(lines[h + 1..], true)
  {
    if h > 0 {
      assert !IsHeader(Strip(lines[..h][0]));
      NoHeaderTail(lines[..h]);
      assert lines[1..][..h - 1] == lines[..h][1..];
      ScanSkipsToHeader(lines[1..], h - 1);
      assert lines[1..][h..] == lines[h + 1..];
    }
  }

  /** Without a header line there is no list, hence no URL. */
  lemma {:induction false} NoHeaderNoUrls(lines: seq<string>)
    requires NoHeader(lines)
    ensures Scan(lines, false) == []
  {
    if lines != [] {
      assert !IsHeader(Strip(lines[0]));
      NoHeaderTail(lines);
      NoHeaderNoUrls(lines[1..]);
    }
  }

  /** A closing line is never a header. */
  lemma CloseNotHeader(line: string)
    requires IsClose(line)
    ensures !IsHeader(line)
  {
    assert line[0] == ']';
    if |line| >= 9 {
      assert line[..9][0] == line[0];
    }
  }

  /** Inside the list, a closing line ends the scan, whatever the lines before it hold. */
  lemma {:induction false} ScanCloseAt(pre: seq<string>, x: string, post: seq<string>)
    requires IsClose(Strip(x))
    ensures Scan(pre + [x] + post, true) == Scan(pre, true)
  {
    var lines := pre + [x] + post;
    if pre == [] {
      assert lines == [x] + post;
      CloseNotHeader(Strip(x));
    } else {
      assert lines[0] == pre[0];
      assert lines[1..] == pre[1..] + [x] + post;
      ScanCloseAt(pre[1..], x, post);
    }
  }

  /** Inside the list, the scan ends at the first closing line: nothing after it is read. */
  lemma {:induction false} ScanStopsAtClose(lines: seq<string>, c: nat, rest: seq<string>)
    requires c < |lines| && IsClose(Strip(lines[c]))
    ensures Scan(lines, true) == Scan(lines[..c], true)
    ensures Scan(lines + rest, true) == Scan(lines, true)
  {
    assert lines == lines[..c] + [lines[c]] + lines[c + 1..];
    ScanCloseAt(lines[..c], lines[c], lines[c + 1..]);
    assert lines + rest == lines[..c] + [lines[c]] + (lines[c + 1..] + rest);
    ScanCloseAt(lines[..c], lines[c], lines[c + 1..] + rest);
  }

  /** No closing line: inside the list, none of these lines ends the scan. */
  predicate NoClose(lines: seq<string>)
  {
    forall j :: 0 <= j < |lines| ==> !IsClose(Strip(lines[j]))
  }

  /** Inside the list and before any closing line, the scan reads the lines one after the other. */
  lemma {:induction false} ScanAppend(pre: seq<string>, post: seq<string>)
    requires NoClose(pre)
    ensures Scan(pre + post, true) == Scan(pre, true) + Scan(post, true)
  {
    if pre == [] {
      assert pre + post == post;
    } else {
      assert (pre + post)[0] == pre[0];
      assert (pre + post)[1..] == pre[1..] + post;
      assert !IsClose(Strip(pre[0]));
      assert NoClose(pre[1..]) by {
        forall j | 0 <= j < |pre| - 1 ensures !IsClose(Strip(pre[1..][j])) {
          assert pre[1..][j] == pre[j + 1];
        }
      }
      ScanAppend(pre[1..], post);
    }
  }

  /** A quoted line is never a header. */
  lemma QuotedNotHeader(line: string)
    requires IsQuoted(line)
    ensures !IsHeader(line) && !IsClose(line)
  {
    assert line[0] == '"' || line[0] == '\'';
    if |line| >= 9 {
      assert line[..9][0] == line[0];
    }
  }

  /**
   * Inside the list and before any closing line, every quoted line becomes
   * a URL, in place: the URLs of the lines before it, then its own, then
   * those of the lines after it.
   */
  lemma ScanCollectsQuoted(pre: seq<string>, x: string, post: seq<string>)
    requires NoClose(pre) && IsQuoted(Strip(x))
    ensures Scan(pre + [x] + post, true) == Scan(pre, true) + [CleanUrl(Strip(x))] + Scan(post, true)
  {
    QuotedNotHeader(Strip(x));
    ScanAppend(pre, [x] + post);
    assert pre + [x] + post == pre + ([x] + post);
    assert ([x] + post)[1..] == post;
  }

  /**
   * The lines the URLs come from: positions, in increasing order, of the
   * quoted lines the scan collects.
   */
  function Origins(lines: seq<string>, inside: bool): (idx: seq<nat>)
    ensures forall k :: 0 <= k < |idx| ==> idx[k] < |lines|
    ensures forall a, b :: 0 <= a < b < |idx| ==> idx[a] < idx[b]
  {
    if lines == [] then []
    else
      var line := Strip(lines[0]);
      if IsHeader(line) then Shift(Origins(lines[1..], true))
      else if inside && IsClose(line) then []
      else if inside && IsQuoted(line) then [0] + Shift(Origins(lines[1..], inside))
      else Shift(Origins(lines[1..], inside))
  }

  /** `urls[k]` is the cleaned text of the quoted line `lines[idx[k]]`, for every `k`. */
  predicate FromQuoted(lines: seq<string>, urls: seq<string>, idx: seq<nat>)
  {
    |urls| == |idx| &&
    forall k :: 0 <= k < |urls| ==>
      idx[k] < |lines| && IsQuoted(Strip(lines[idx[k]])) && urls[k] == CleanUrl(Strip(lines[idx[k]]))
  }

  lemma FromQuotedShift(lines: seq<string>, urls: seq<string>, idx: seq<nat>)
    requires lines != [] && FromQuoted(lines[1..], urls, idx)
    ensures FromQuoted(lines, urls, Shift(idx))
  {
    forall k | 0 <= k < |urls|
      ensures Shift(idx)[k] < |lines| && lines[Shift(idx)[k]] == lines[1..][idx[k]]
    {
    }
  }

  lemma FromQuotedCons(lines: seq<string>, urls: seq<string>, idx: seq<nat>)
    requires lines != [] && IsQuoted(Strip(lines[0]))
    requires FromQuoted(lines, urls, idx)
    ensures FromQuoted(lines, [CleanUrl(Strip(lines[0]))] + urls, [0] + idx)
  {
    var urls', idx' := [CleanUrl(Strip(lines[0]))] + urls, [0] + idx;
    forall k | 0 <= k < |urls'|
      ensures idx'[k] < |lines| && IsQuoted(Strip(lines[idx'[k]])) && urls'[k] == CleanUrl(Strip(lines[idx'[k]]))
    {
      if k > 0 {
        assert urls'[k] == urls[k - 1] && idx'[k] == idx[k - 1];
      }
    }
  }

  /**
   * Every URL is the cleaned text of a quoted line, and the URLs follow the
   * order of their lines.
   */
  lemma {:induction false} ScanFromQuotedLines(lines: seq<string>, inside: bool)
    ensures FromQuoted(lines, Scan(lines, inside), Origins(lines, inside))
  {
    if lines != [] {
      var line := Strip(lines[0]);
      var inside' := if IsHeader(line) then true else inside;
      ScanFromQuotedLines(lines[1..], inside');
      var tailUrls, tail := Scan(lines[1..], inside'), Origins(lines[1..], inside');
      FromQuotedShift(lines, tailUrls, tail);
      if !IsHeader(line) && inside && !IsClose(line) && IsQuoted(line) {
        FromQuotedCons(lines, tailUrls, Shift(tail));
      }
    }
  }

  /** `StripChar` leaves a string alone whose ends differ from the character. */
  lemma StripCharNoop(s: string, c: char)
    requires s == [] || (s[0] != c && s[|s| - 1] != c)
    ensures StripChar(s, c) == s
  {
  }

  lemma StripCharTrailing(u: string, c: char)
    requires u == [] || (u[0] != c && u[|u| - 1] != c)
    ensures StripChar(u + [c], c) == u
  {
    if u == [] {
      assert ([] + [c])[1..] == [];
    } else {
      assert (u + [c])[..|u|] == u;
    }
  }

  lemma StripCharBoth(u: string, c: char)
    requires u == [] || (u[0] != c && u[|u| - 1] != c)
    ensures StripChar([c] + u + [c], c) == u
  {
    assert ([c] + u + [c])[1..] == u + [c];
    StripCharTrailing(u, c);
  }

  /** The ends of `u` carry none of the characters `CleanUrl` trims. */
  predicate PlainUrl(u: string)
  {
    u == [] || (u[0] !in ",'\"" && u[|u| - 1] !in ",'\"")
  }

  /** Round trip: a URL written as a list item, `"u",` or `'u',`, is read back as `u`. */
  lemma CleanUrlOfItem(u: string)
    requires PlainUrl(u)
    ensures CleanUrl("\"" + u + "\",") == u
    ensures CleanUrl("'" + u + "',") == u
  {
    assert "\"" + u + "\"," == ("\"" + u + "\"") + [','];
    StripCharTrailing("\"" + u + "\"", ',');
    StripCharNoop("\"" + u + "\"", '\'');
    StripCharBoth(u, '"');
    assert "'" + u + "'," == ("'" + u + "'") + [','];
    StripCharTrailing("'" + u + "'", ',');
    StripCharBoth(u, '\'');
    StripCharNoop(u, '"');
  }

  /** A file whose only line is the header yields no URL, hence the error. */
  lemma HeaderOnlyIsError(content: string)
    requires NoLineBreak(content) && IsHeader(Strip(content))
    ensures ParseResult(content) == Err(NoUrlsMessage)
  {
    LineEndNone(content);
    assert SplitLines(content) == [content];
    assert Scan([content], false) == Scan([], true);
  }

  /** So a list written on the header's own line is an error. */
  lemma OneLineListIsError()
    ensures ParseResult("NIPS_URLS = [\"a\"]") == Err(NoUrlsMessage)
  {
    var content := "NIPS_URLS = [\"a\"]";
    assert Strip(content) == content;
    assert content[10] == '=';
    HeaderOnlyIsError(content);
  }
}
