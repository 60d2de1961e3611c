/**
 * `NIPSParser`: turns fetched documentation pages into question/answer
 * pairs. Each page arrives as the flat sequence of its top-level HTML
 * elements; every long enough heading becomes the question
 * "What does <heading> mean?" and the blocks under it, up to the next
 * heading, become its answer. A question already produced (on this page or
 * an earlier one) is not produced again.
 */
module NipsParser {
  import opened Types
  import opened PyStr
  import opened AnswerText

  /** A top-level element of a page, with the text the parser reads from it. */
  datatype Element =
    | Heading(text: string)          // h1 .. h6; `get_text(strip=True)`
    | Paragraph(text: string)        // p; `get_text(strip=True)`
    | ItemList(items: seq<string>)   // ul / ol; `get_text(strip=True)` of every li
    | Preformatted(code: string)     // pre; `get_text()`
    | InlineCode(code: string)       // code outside any pre; `get_text(strip=True)`
    | Other                          // any other tag

  type Document = seq<Element>

  /** What a heading's sibling adds to the heading's answer, if anything. */
  function Block(e: Element): (b: Option<string>)
    ensures b.None? <==> (e.Heading? || e.Other?)
  {
    match e
    case Paragraph(t) => Some(t)
    case ItemList(items) => Some(Join(seq(|items|, i requires 0 <= i < |items| => "- " + items[i]), "\n"))
    case Preformatted(c) => Some("```\n" + Strip(c) + "\n```")
    case InlineCode(c) => Some("`" + c + "`")
    case _ => None
  }

  function BlockSeq(e: Element): seq<string>
  {
    match Block(e)
    case Some(b) => [b]
    case None => []
  }

  /** The content blocks of the siblings that follow a heading, up to the next heading. */
  function Gather(siblings: Document): (blocks: seq<string>)
    ensures |blocks| <= |siblings|
  {
    if siblings == [] || siblings[0].Heading? then []
    else BlockSeq(siblings[0]) + Gather(siblings[1..])
  }

  /** The cleaned answer of a heading followed by `siblings`. */
  function SectionAnswer(siblings: Document): string
  {
    CleanAnswerText(Join(Gather(siblings), "\n\n"))
  }

  /** Number of headings of `doc` at least `minLen` characters long. */
  function CountLong(doc: Document, minLen: int): nat
  {
    if doc == [] then 0
    else (if doc[0].Heading? && |doc[0].text| >= minLen then 1 else 0) + CountLong(doc[1..], minLen)
  }

  /** The headings and contents a page yields, and how many sections it skips. */
  datatype Extraction = Extraction(headings: seq<string>, contents: seq<string>, skipped: nat)

  /** The cleaned answer of every position of `doc`, as if a heading stood there. */
  function Answers(doc: Document): (answers: seq<string>)
    ensures |answers| == |doc|
  {
    seq(|doc|, k requires 0 <= k < |doc| => SectionAnswer(doc[k + 1..]))
  }

  /**
   * What `extract_headings_and_content` computes: headings shorter than
   * `minLen` are passed over without being counted; a long heading is kept
   * with its answer when the answer is not blank, and is counted as
   * skipped otherwise.
   */
  function Sections(doc: Document, minLen: int): (e: Extraction)
    ensures |e.headings| == |e.contents|
  {
    SectionsWith(doc, Answers(doc), minLen)
  }

  /** `Sections` with the answer of position `k` given as `answers[k]`. */
  function SectionsWith(doc: Document, answers: seq<string>, minLen: int): (e: Extraction)
    requires |answers| == |doc|
    ensures |e.headings| == |e.contents|
  {
    if doc == [] then Extraction([], [], 0)
    else AddSection(doc[0], answers[0], SectionsWith(doc[1..], answers[1..], minLen), minLen)
  }

  /** How the element `e`, whose section has `answer`, adds to what the rest of the page yields. */
  function AddSection(e: Element, answer: string, rest: Extraction, minLen: int): (r: Extraction)
    requires |rest.headings| == |rest.contents|
    ensures |r.headings| == |r.contents|
  {
    if !e.Heading? || |e.text| < minLen then rest
    else if Strip(answer) != "" then Extraction([e.text] + rest.headings, [answer] + rest.contents, rest.skipped)
    else Extraction(rest.headings, rest.contents, rest.skipped + 1)
  }

  /** Every kept heading is at least `minLen` long and its content is not blank. */
  predicate KeptWell(e: Extraction, minLen: int)
  {
    |e.headings| == |e.contents| &&
    forall k :: 0 <= k < |e.headings| ==> |e.headings[k]| >= minLen && Strip(e.contents[k]) != ""
  }

  lemma AddSectionShape(e: Element, answer: string, rest: Extraction, minLen: int)
    requires KeptWell(rest, minLen)
    ensures var r := AddSection(e, answer, rest, minLen);
      && KeptWell(r, minLen)
      && |r.headings| + r.skipped == (if e.Heading? && |e.text| >= minLen then 1 else 0) + |rest.headings| + rest.skipped
  {
  }

  lemma {:induction false} SectionsWithShape(doc: Document, answers: seq<string>, minLen: int)
    requires |answers| == |doc|
    ensures var e := SectionsWith(doc, answers, minLen);
      KeptWell(e, minLen) && |e.headings| + e.skipped == CountLong(doc, minLen)
  {
    if doc != [] {
      SectionsWithShape(doc[1..], answers[1..], minLen);
      AddSectionShape(doc[0], answers[0], SectionsWith(doc[1..], answers[1..], minLen), minLen);
    }
  }

  /**
   * Every kept heading is at least `minLen` long and its content is not
   * blank; every long heading is either kept or counted as skipped, short
   * ones are neither.
   */
  lemma SectionsShape(doc: Document, minLen: int)
    ensures var e := Sections(doc, minLen);
      KeptWell(e, minLen) && |e.headings| + e.skipped == CountLong(doc, minLen)
  {
    SectionsWithShape(doc, Answers(doc), minLen);
  }

  /** A long heading whose cleaned answer is not blank: its section is kept. */
  predicate KeepsSection(e: Element, answer: string, minLen: int)
  {
    e.Heading? && |e.text| >= minLen && Strip(answer) != ""
  }

  /** A long heading whose cleaned answer is blank: its section is counted as skipped. */
  predicate SkipsSection(e: Element, answer: string, minLen: int)
  {
    e.Heading? && |e.text| >= minLen && Strip(answer) == ""
  }

  predicate Selects(e: Element, answer: string, minLen: int, keep: bool)
  {
    if keep then KeepsSection(e, answer, minLen) else SkipsSection(e, answer, minLen)
  }

  /**
   * The positions of `doc`, in increasing order, whose section is kept
   * (`keep`) or counted as skipped (`!keep`), the answer of position `p`
   * being `answers[p]`.
   */
  function SectionPositions(doc: Document, answers: seq<string>, minLen: int, keep: bool): (idx: seq<nat>)
    requires |answers| == |doc|
    ensures forall k :: 0 <= k < |idx| ==> idx[k] < |doc|
    ensures forall a, b :: 0 <= a < b < |idx| ==> idx[a] < idx[b]
  {
    if doc == [] then []
    else
      var tail := Shift(SectionPositions(doc[1..], answers[1..], minLen, keep));
      if Selects(doc[0], answers[0], minLen, keep) then [0] + tail else tail
  }

  lemma ShiftIn(idx: seq<nat>)
    ensures forall p: nat :: p in Shift(idx) <==> p >= 1 && p - 1 in idx
  {
    forall p: nat | p in Shift(idx) ensures p >= 1 && p - 1 in idx {
      var k :| 0 <= k < |idx| && Shift(idx)[k] == p;
      assert idx[k] == p - 1;
    }
    forall p: nat | p >= 1 && p - 1 in idx ensures p in Shift(idx) {
      var k :| 0 <= k < |idx| && idx[k] == p - 1;
      assert Shift(idx)[k] == p;
    }
  }

  /** `SectionPositions` holds exactly the positions whose section is kept (or skipped). */
  lemma {:induction false} SectionPositionsExact(doc: Document, answers: seq<string>, minLen: int, keep: bool)
    requires |answers| == |doc|
    ensures forall p: nat :: p in SectionPositions(doc, answers, minLen, keep) <==>
      p < |doc| && Selects(doc[p], answers[p], minLen, keep)
  {
    if doc != [] {
      var rest := SectionPositions(doc[1..], answers[1..], minLen, keep);
      SectionPositionsExact(doc[1..], answers[1..], minLen, keep);
      ShiftIn(rest);
      forall p: nat
        ensures p in SectionPositions(doc, answers, minLen, keep) <==>
          p < |doc| && Selects(doc[p], answers[p], minLen, keep)
      {
        if p >= 1 {
          assert p - 1 in rest <==> p < |doc| && Selects(doc[1..][p - 1], answers[1..][p - 1], minLen, keep);
        }
      }
    }
  }

  /** The kept headings and answers of `e` are those of `doc` at positions `idx`, in order. */
  predicate KeptFrom(e: Extraction, doc: Document, answers: seq<string>, idx: seq<nat>)
    requires |answers| == |doc|
  {
    |e.headings| == |idx| && |e.contents| == |idx| &&
    forall k :: 0 <= k < |idx| ==>
      idx[k] < |doc| && doc[idx[k]].Heading? && e.headings[k] == doc[idx[k]].text && e.contents[k] == answers[idx[k]]
  }

  /** One element in front of a page whose kept sections are known. */
  lemma AddSectionAt(doc: Document, answers: seq<string>, minLen: int, rest: Extraction, tail: seq<nat>)
    requires |answers| == |doc| && doc != []
    requires KeptFrom(rest, doc[1..], answers[1..], tail)
    ensures KeptFrom(AddSection(doc[0], answers[0], rest, minLen), doc, answers,
                     if KeepsSection(doc[0], answers[0], minLen) then [0] + Shift(tail) else Shift(tail))
  {
    var e := AddSection(doc[0], answers[0], rest, minLen);
    var shifted := Shift(tail);
    assert KeptFrom(rest, doc, answers, shifted) by {
      forall k | 0 <= k < |tail|
        ensures shifted[k] < |doc| && doc[shifted[k]] == doc[1..][tail[k]] && answers[shifted[k]] == answers[1..][tail[k]]
      {
      }
    }
    if KeepsSection(doc[0], answers[0], minLen) {
      var idx := [0] + shifted;
      forall k | 0 <= k < |idx|
        ensures idx[k] < |doc| && doc[idx[k]].Heading? && e.headings[k] == doc[idx[k]].text && e.contents[k] == answers[idx[k]]
      {
        if k > 0 {
          assert idx[k] == shifted[k - 1];
          assert e.headings[k] == rest.headings[k - 1];
          assert e.contents[k] == rest.contents[k - 1];
        }
      }
    }
  }

  /** `SectionsWith` keeps the heading and answer of every kept position, in order, and counts the skipped ones. */
  lemma {:induction false} SectionsWithAt(doc: Document, answers: seq<string>, minLen: int)
    requires |answers| == |doc|
    ensures KeptFrom(SectionsWith(doc, answers, minLen), doc, answers, SectionPositions(doc, answers, minLen, true))
    ensures SectionsWith(doc, answers, minLen).skipped == |SectionPositions(doc, answers, minLen, false)|
  {
    if doc != [] {
      var rest := SectionsWith(doc[1..], answers[1..], minLen);
      var tail := SectionPositions(doc[1..], answers[1..], minLen, true);
      SectionsWithAt(doc[1..], answers[1..], minLen);
      assert SectionsWith(doc, answers, minLen) == AddSection(doc[0], answers[0], rest, minLen);
      AddSectionAt(doc, answers, minLen, rest, tail);
    }
  }

  /**
   * `extract_headings_and_content` exactly: the kept sections are the
   * positions, in document order, of the headings at least `minLen` long
   * whose cleaned answer is not blank; each gives its heading text and its
   * cleaned answer (the blocks up to the next heading). The skip count is
   * the number of headings at least `minLen` long whose answer is blank.
   */
  lemma SectionsExact(doc: Document, minLen: int)
    ensures var e := Sections(doc, minLen);
      var answers := Answers(doc);
      var kept := SectionPositions(doc, answers, minLen, true);
      var skipped := SectionPositions(doc, answers, minLen, false);
      && |e.headings| == |e.contents| == |kept|
      && (forall a, b :: 0 <= a < b < |kept| ==> kept[a] < kept[b])
      && (forall p: nat :: p in kept <==> p < |doc| && KeepsSection(doc[p], answers[p], minLen))
      && (forall k :: 0 <= k < |kept| ==>
            doc[kept[k]].Heading? && e.headings[k] == doc[kept[k]].text &&
            e.contents[k] == SectionAnswer(doc[kept[k] + 1..]))
      && (forall a, b :: 0 <= a < b < |skipped| ==> skipped[a] < skipped[b])
      && (forall p: nat :: p in skipped <==> p < |doc| && SkipsSection(doc[p], answers[p], minLen))
      && e.skipped == |skipped|
  {
    var answers := Answers(doc);
    SectionsWithAt(doc, answers, minLen);
    SectionPositionsExact(doc, answers, minLen, true);
    SectionPositionsExact(doc, answers, minLen, false);
  }

  function Question(heading: string): string
  {
    "What does " + heading + " mean?"
  }

  function AnswerFor(paragraphs: seq<string>, i: nat): string
  {
    if i < |paragraphs| then paragraphs[i] else "No content available."
  }

  /**
   * The positions of `headings`, from `i` on, whose question is produced
   * when `seen` holds the questions produced so far.
   */
  function Kept(headings: seq<string>, seen: set<string>, i: nat): (idx: seq<nat>)
    requires i <= |headings|
    ensures |idx| <= |headings| - i
    ensures forall k :: 0 <= k < |idx| ==> i <= idx[k] < |headings|
    ensures forall a, b :: 0 <= a < b < |idx| ==> idx[a] < idx[b]
    decreases |headings| - i
  {
    if i == |headings| then []
    else if Question(headings[i]) in seen then Kept(headings, seen, i + 1)
    else [i] + Kept(headings, seen + {Question(headings[i])}, i + 1)
  }

  function PairsAt(headings: seq<string>, paragraphs: seq<string>, idx: seq<nat>): (pairs: seq<QaPair>)
    requires forall k :: 0 <= k < |idx| ==> idx[k] < |headings|
  {
    seq(|idx|, k requires 0 <= k < |idx| => QaPair(Question(headings[idx[k]]), AnswerFor(paragraphs, idx[k])))
  }

  function Questions(pairs: seq<QaPair>): set<string>
  {
    set k | 0 <= k < |pairs| :: pairs[k].question
  }

  /** Questions pairwise distinct. */
  predicate DistinctQuestions(pairs: seq<QaPair>)
  {
    forall a, b :: 0 <= a < b < |pairs| ==> pairs[a].question != pairs[b].question
  }

  function Generated(headings: seq<string>, paragraphs: seq<string>, seen: set<string>): (pairs: seq<QaPair>)
    ensures |pairs| <= |headings|
  {
    PairsAt(headings, paragraphs, Kept(headings, seen, 0))
  }

  /** The questions at positions `idx` were not in `seen`. */
  predicate FreshAt(headings: seq<string>, idx: seq<nat>, seen: set<string>)
  {
    forall k :: 0 <= k < |idx| ==> idx[k] < |headings| && Question(headings[idx[k]]) !in seen
  }

  /** The questions at positions `idx` are pairwise distinct. */
  predicate DistinctAt(headings: seq<string>, idx: seq<nat>)
  {
    forall a, b :: 0 <= a < b < |idx| && idx[a] < |headings| && idx[b] < |headings| ==>
      Question(headings[idx[a]]) != Question(headings[idx[b]])
  }

  /** The question of heading `j` is among the questions at positions `idx`. */
  predicate CoveredAt(headings: seq<string>, idx: seq<nat>, j: nat)
    requires j < |headings|
  {
    exists k :: 0 <= k < |idx| && idx[k] < |headings| && Question(headings[idx[k]]) == Question(headings[j])
  }

  /** No kept position carries a question seen before. */
  lemma {:induction false} KeptFresh(headings: seq<string>, seen: set<string>, i: nat)
    requires i <= |headings|
    ensures FreshAt(headings, Kept(headings, seen, i), seen)
    decreases |headings| - i
  {
    if i < |headings| {
      var q := Question(headings[i]);
      if q in seen {
        assert Kept(headings, seen, i) == Kept(headings, seen, i + 1);
        KeptFresh(headings, seen, i + 1);
      } else {
        KeptFresh(headings, seen + {q}, i + 1);
        assert Kept(headings, seen, i) == [i] + Kept(headings, seen + {q}, i + 1);
      }
    }
  }

  /** No two kept positions carry the same question. */
  lemma {:induction false} KeptDistinct(headings: seq<string>, seen: set<string>, i: nat)
    requires i <= |headings|
    ensures DistinctAt(headings, Kept(headings, seen, i))
    decreases |headings| - i
  {
    if i < |headings| {
      var q := Question(headings[i]);
      if q in seen {
        assert Kept(headings, seen, i) == Kept(headings, seen, i + 1);
        KeptDistinct(headings, seen, i + 1);
      } else {
        var tail := Kept(headings, seen + {q}, i + 1);
        KeptDistinct(headings, seen + {q}, i + 1);
        KeptFresh(headings, seen + {q}, i + 1);
        var idx := Kept(headings, seen, i);
        assert idx == [i] + tail;
        forall a, b | 0 <= a < b < |idx| && idx[a] < |headings| && idx[b] < |headings|
          ensures Question(headings[idx[a]]) != Question(headings[idx[b]])
        {
          assert idx[b] == tail[b - 1];
          if a == 0 {
            assert idx[0] == i;
          } else {
            assert idx[a] == tail[a - 1];
          }
        }
      }
    }
  }

  /** Every heading from `i` on whose question was not seen before has its question kept. */
  lemma {:induction false} KeptComplete(headings: seq<string>, seen: set<string>, i: nat, j: nat)
    requires i <= j < |headings| && Question(headings[j]) !in seen
    ensures CoveredAt(headings, Kept(headings, seen, i), j)
    decreases |headings| - i
  {
    var q := Question(headings[i]);
    var idx := Kept(headings, seen, i);
    if q in seen {
      assert idx == Kept(headings, seen, i + 1);
      KeptComplete(headings, seen, i + 1, j);
    } else if q == Question(headings[j]) {
      assert idx[0] == i;
    } else {
      var tail := Kept(headings, seen + {q}, i + 1);
      assert idx == [i] + tail;
      KeptComplete(headings, seen + {q}, i + 1, j);
      var k :| 0 <= k < |tail| && tail[k] < |headings| && Question(headings[tail[k]]) == Question(headings[j]);
      assert idx[k + 1] == tail[k];
    }
  }

  /** Every heading from `i` up to a kept position gives a different question: the first occurrence is kept. */
  predicate FirstAt(headings: seq<string>, idx: seq<nat>, i: nat)
  {
    forall k, j :: 0 <= k < |idx| && i <= j < idx[k] && idx[k] < |headings| ==>
      Question(headings[j]) != Question(headings[idx[k]])
  }

  /** A kept position is the first, from `i` on, that carries its question. */
  lemma {:induction false} KeptFirst(headings: seq<string>, seen: set<string>, i: nat)
    requires i <= |headings|
    ensures FirstAt(headings, Kept(headings, seen, i), i)
    decreases |headings| - i
  {
    if i < |headings| {
      var q := Question(headings[i]);
      var idx := Kept(headings, seen, i);
      if q in seen {
        assert idx == Kept(headings, seen, i + 1);
        KeptFirst(headings, seen, i + 1);
        KeptFresh(headings, seen, i + 1);
      } else {
        var tail := Kept(headings, seen + {q}, i + 1);
        assert idx == [i] + tail;
        KeptFirst(headings, seen + {q}, i + 1);
        KeptFresh(headings, seen + {q}, i + 1);
        forall k, j | 0 <= k < |idx| && i <= j < idx[k] && idx[k] < |headings|
          ensures Question(headings[j]) != Question(headings[idx[k]])
        {
          assert k > 0;
          assert idx[k] == tail[k - 1];
        }
      }
    }
  }

  /**
   * `generate_qa_pairs` in terms of its result: every question is
   * "What does <heading> mean?" for a heading taken in order, its answer is
   * the paragraph at the heading's position or "No content available.",
   * no question was seen before, no question repeats, every unseen
   * question is produced, and there are at most as many pairs as headings.
   * Of several headings with the same question the first is the one kept,
   * so its paragraph is the answer.
   */
  lemma GeneratedPairs(headings: seq<string>, paragraphs: seq<string>, seen: set<string>)
    ensures var pairs := Generated(headings, paragraphs, seen);
      var idx := Kept(headings, seen, 0);
      && |pairs| == |idx| <= |headings|
      && (forall k :: 0 <= k < |idx| ==> idx[k] < |headings|)
      && (forall a, b :: 0 <= a < b < |idx| ==> idx[a] < idx[b] < |headings|)
      && (forall k :: 0 <= k < |pairs| ==>
            pairs[k] == QaPair(Question(headings[idx[k]]),
                               if idx[k] < |paragraphs| then paragraphs[idx[k]] else "No content available."))
      && (forall k :: 0 <= k < |pairs| ==> pairs[k].question !in seen)
      && DistinctQuestions(pairs)
      && (forall j :: 0 <= j < |headings| && Question(headings[j]) !in seen ==> Question(headings[j]) in Questions(pairs))
      && (forall k, j :: 0 <= k < |idx| && 0 <= j < idx[k] ==> Question(headings[j]) != pairs[k].question)
  {
    KeptFresh(headings, seen, 0);
    KeptDistinct(headings, seen, 0);
    KeptFirst(headings, seen, 0);
    var pairs := Generated(headings, paragraphs, seen);
    var idx := Kept(headings, seen, 0);
    forall j | 0 <= j < |headings| && Question(headings[j]) !in seen
      ensures Question(headings[j]) in Questions(pairs)
    {
      KeptComplete(headings, seen, 0, j);
      var k :| 0 <= k < |idx| && idx[k] < |headings| && Question(headings[idx[k]]) == Question(headings[j]);
      assert pairs[k].question == Question(headings[j]);
    }
  }

  /** One produced pair of `generate_qa_pairs`, in terms of `Kept` and `PairsAt`. */
  lemma GenerateStep(headings: seq<string>, paragraphs: seq<string>, seen0: set<string>, seen: set<string>,
                     idx: seq<nat>, i: nat, pairs: seq<QaPair>)
    requires i < |headings| && Question(headings[i]) !in seen
    requires forall k :: 0 <= k < |idx| ==> idx[k] < i
    requires idx + Kept(headings, seen, i) == Kept(headings, seen0, 0)
    requires pairs == PairsAt(headings, paragraphs, idx)
    requires seen == seen0 + Questions(pairs)
    ensures var q := Question(headings[i]);
      var pairs' := pairs + [QaPair(q, AnswerFor(paragraphs, i))];
      && (forall k :: 0 <= k < |idx + [i]| ==> (idx + [i])[k] < i + 1)
      && (idx + [i]) + Kept(headings, seen + {q}, i + 1) == Kept(headings, seen0, 0)
      && pairs' == PairsAt(headings, paragraphs, idx + [i])
      && seen + {q} == seen0 + Questions(pairs')
  {
    var q := Question(headings[i]);
    var pair := QaPair(q, AnswerFor(paragraphs, i));
    assert (idx + [i]) + Kept(headings, seen + {q}, i + 1) == Kept(headings, seen0, 0) by {
      assert Kept(headings, seen, i) == [i] + Kept(headings, seen + {q}, i + 1);
      AppendAssoc(idx, [i], Kept(headings, seen + {q}, i + 1));
    }
    assert pairs + [pair] == PairsAt(headings, paragraphs, idx + [i]) by {
      var idx' := idx + [i];
      forall k | 0 <= k < |idx'| ensures (pairs + [pair])[k] == PairsAt(headings, paragraphs, idx')[k] {
        if k < |idx| {
          assert idx'[k] == idx[k];
        }
      }
    }
    assert seen + {q} == seen0 + Questions(pairs + [pair]) by {
      QuestionsAppend(pairs, [pair]);
      assert [pair][0].question == q;
      assert Questions([pair]) == {q};
    }
  }

  /** The state `scrape` threads from page to page. */
  datatype ParserState = ParserState(pairs: seq<QaPair>, seen: set<string>, skipped: int)

  /** The invariant the parser keeps: all pairs differ in their question, and every question is remembered. */
  predicate Inv(st: ParserState)
  {
    DistinctQuestions(st.pairs) && Questions(st.pairs) <= st.seen
  }

  /** One fetched page: extract, generate, append. */
  function ProcessDoc(st: ParserState, minLen: int, doc: Document): ParserState
  {
    var e := Sections(doc, minLen);
    var pairs := Generated(e.headings, e.contents, st.seen);
    ParserState(st.pairs + pairs, st.seen + Questions(pairs), st.skipped + e.skipped)
  }

  /** One URL of `scrape`: a failed fetch (`None`) changes nothing. */
  function ScrapeStep(st: ParserState, minLen: int, page: Option<Document>): ParserState
  {
    match page
    case Some(doc) => ProcessDoc(st, minLen, doc)
    case None => st
  }

  /** `scrape` over the pages fetched for the URLs, in URL order. */
  function ScrapeDocs(st: ParserState, minLen: int, pages: seq<Option<Document>>): (r: ParserState)
    ensures |st.pairs| <= |r.pairs| && st.seen <= r.seen && st.skipped <= r.skipped
    decreases |pages|
  {
    if pages == [] then st else ScrapeDocs(ScrapeStep(st, minLen, pages[0]), minLen, pages[1..])
  }

  function OnlyFetched(pages: seq<Option<Document>>): (r: seq<Option<Document>>)
    ensures |r| <= |pages|
    ensures forall k :: 0 <= k < |r| ==> r[k].Some?
  {
    if pages == [] then []
    else if pages[0].Some? then [pages[0]] + OnlyFetched(pages[1..])
    else OnlyFetched(pages[1..])
  }

  lemma QuestionsAppend(a: seq<QaPair>, b: seq<QaPair>)
    ensures Questions(a + b) == Questions(a) + Questions(b)
  {
    forall q | q in Questions(a + b) ensures q in Questions(a) + Questions(b) {
      var k :| 0 <= k < |a + b| && (a + b)[k].question == q;
      if k >= |a| { assert b[k - |a|].question == q; }
    }
    forall q | q in Questions(a) + Questions(b) ensures q in Questions(a + b) {
      if q in Questions(a) {
        var k :| 0 <= k < |a| && a[k].question == q;
        assert (a + b)[k].question == q;
      } else {
        var k :| 0 <= k < |b| && b[k].question == q;
        assert (a + b)[|a| + k].question == q;
      }
    }
  }

  /** Appending pairs whose questions are new and distinct, and remembering them, keeps the invariant. */
  lemma AppendFreshKeepsInv(st: ParserState, pairs: seq<QaPair>, skipped: int)
    requires Inv(st)
    requires DistinctQuestions(pairs)
    requires forall k :: 0 <= k < |pairs| ==> pairs[k].question !in st.seen
    ensures Inv(ParserState(st.pairs + pairs, st.seen + Questions(pairs), skipped))
  {
    var all := st.pairs + pairs;
    QuestionsAppend(st.pairs, pairs);
    forall a, b | 0 <= a < b < |all| ensures all[a].question != all[b].question {
      if b >= |st.pairs| && a < |st.pairs| {
        assert all[a].question in Questions(st.pairs);
        assert all[b] == pairs[b - |st.pairs|];
      } else if a >= |st.pairs| {
        assert all[a] == pairs[a - |st.pairs|];
        assert all[b] == pairs[b - |st.pairs|];
      }
    }
  }

  /**
   * Processing a page keeps the invariant, only appends pairs, only adds
   * questions and never lowers the skip count.
   */
  lemma ProcessDocKeepsInv(st: ParserState, minLen: int, doc: Document)
    requires Inv(st)
    ensures var st' := ProcessDoc(st, minLen, doc);
      && Inv(st')
      && st'.pairs[..|st.pairs|] == st.pairs
      && st.seen <= st'.seen
      && st'.skipped >= st.skipped
  {
    var e := Sections(doc, minLen);
    var pairs := Generated(e.headings, e.contents, st.seen);
    GeneratedPairs(e.headings, e.contents, st.seen);
    AppendFreshKeepsInv(st, pairs, st.skipped + e.skipped);
    assert (st.pairs + pairs)[..|st.pairs|] == st.pairs;
  }

  /**
   * Scraping any sequence of pages keeps the invariant: all questions
   * collected are pairwise distinct and remembered; earlier pairs stay.
   */
  lemma {:induction false} ScrapeKeepsInv(st: ParserState, minLen: int, pages: seq<Option<Document>>)
    requires Inv(st)
    ensures var st' := ScrapeDocs(st, minLen, pages);
      && Inv(st')
      && |st.pairs| <= |st'.pairs| && st'.pairs[..|st.pairs|] == st.pairs
      && st.seen <= st'.seen
      && st'.skipped >= st.skipped
    decreases |pages|
  {
    if pages != [] {
      var next := ScrapeStep(st, minLen, pages[0]);
      if pages[0].Some? {
        ProcessDocKeepsInv(st, minLen, pages[0].value);
      }
      ScrapeKeepsInv(next, minLen, pages[1..]);
      var st' := ScrapeDocs(next, minLen, pages[1..]);
      assert st'.pairs[..|st.pairs|] == st'.pairs[..|next.pairs|][..|st.pairs|];
    }
  }

  /** Scraping two lists of pages one after the other is scraping their concatenation. */
  lemma {:induction false} ScrapeAppend(st: ParserState, minLen: int, a: seq<Option<Document>>, b: seq<Option<Document>>)
    ensures ScrapeDocs(st, minLen, a + b) == ScrapeDocs(ScrapeDocs(st, minLen, a), minLen, b)
    decreases |a|
  {
    if a == [] {
      assert a + b == b;
    } else {
      var next := ScrapeStep(st, minLen, a[0]);
      assert (a + b)[0] == a[0];
      assert (a + b)[1..] == a[1..] + b;
      ScrapeAppend(next, minLen, a[1..], b);
      calc {
        ScrapeDocs(st, minLen, a + b);
        ScrapeDocs(next, minLen, a[1..] + b);
        ScrapeDocs(ScrapeDocs(next, minLen, a[1..]), minLen, b);
        ScrapeDocs(ScrapeDocs(st, minLen, a), minLen, b);
      }
    }
  }

  /** Failed fetches contribute nothing: only the fetched pages matter. */
  lemma {:induction false} ScrapeIgnoresFailures(st: ParserState, minLen: int, pages: seq<Option<Document>>)
    ensures ScrapeDocs(st, minLen, pages) == ScrapeDocs(st, minLen, OnlyFetched(pages))
    decreases |pages|
  {
    if pages != [] {
      ScrapeIgnoresFailures(ScrapeStep(st, minLen, pages[0]), minLen, pages[1..]);
      if pages[0].Some? {
        assert OnlyFetched(pages) == [pages[0]] + OnlyFetched(pages[1..]);
        assert (OnlyFetched(pages))[1..] == OnlyFetched(pages[1..]);
      }
    }
  }

  /** Content gathering stops at the next heading: what follows it is never read. */
  lemma {:induction false} GatherStopsAtHeading(before: Document, h: string, after: Document)
    requires forall k :: 0 <= k < |before| ==> !before[k].Heading?
    ensures Gather(before + [Heading(h)] + after) == Gather(before)
  {
    if before == [] {
    } else {
      assert (before + [Heading(h)] + after)[1..] == before[1..] + [Heading(h)] + after;
      GatherStopsAtHeading(before[1..], h, after);
    }
  }

  /** One step of `Gather` from position `j` of a page. */
  lemma GatherStep(doc: Document, j: nat)
    requires j < |doc|
    ensures Gather(doc[j..]) == if doc[j].Heading? then [] else BlockSeq(doc[j]) + Gather(doc[j + 1..])
  {
    assert doc[j..][0] == doc[j];
    assert doc[j..][1..] == doc[j + 1..];
  }

  /** One step of `SectionsWith` from position `i` of a page. */
  lemma SectionsStep(doc: Document, answers: seq<string>, i: nat, minLen: int)
    requires |answers| == |doc| && i < |doc|
    ensures SectionsWith(doc[i..], answers[i..], minLen)
         == AddSection(doc[i], answers[i], SectionsWith(doc[i + 1..], answers[i + 1..], minLen), minLen)
  {
    assert doc[i..][1..] == doc[i + 1..];
    assert answers[i..][1..] == answers[i + 1..];
  }

  /** A text `clean_answer_text` may return: without "\r", stripped, and free of "\n\n\n". */
  predicate IsCleanAnswer(s: string)
  {
    '\r' !in s && IsStripped(s) && NoTripleNewline(s)
  }

  lemma CleanAnswerIsClean(text: string)
    ensures IsCleanAnswer(CleanAnswerText(text))
  {
    CleanShape(text);
  }

  predicate ContentsClean(e: Extraction)
  {
    forall k :: 0 <= k < |e.contents| ==> IsCleanAnswer(e.contents[k])
  }

  lemma AddSectionClean(e: Element, answer: string, rest: Extraction, minLen: int)
    requires |rest.headings| == |rest.contents|
    requires IsCleanAnswer(answer) && ContentsClean(rest)
    ensures ContentsClean(AddSection(e, answer, rest, minLen))
  {
    var r := AddSection(e, answer, rest, minLen);
    if r.contents != rest.contents {
      assert r.contents == [answer] + rest.contents;
      forall k | 0 <= k < |r.contents|
        ensures IsCleanAnswer(r.contents[k])
      {
        if k > 0 {
          assert r.contents[k] == rest.contents[k - 1];
        }
      }
    }
  }

  lemma {:induction false} SectionsWithClean(doc: Document, answers: seq<string>, minLen: int)
    requires |answers| == |doc|
    requires forall k :: 0 <= k < |answers| ==> IsCleanAnswer(answers[k])
    ensures ContentsClean(SectionsWith(doc, answers, minLen))
  {
    if doc != [] {
      SectionsWithClean(doc[1..], answers[1..], minLen);
      AddSectionClean(doc[0], answers[0], SectionsWith(doc[1..], answers[1..], minLen), minLen);
    }
  }

  /** Every kept content is a cleaned text. */
  lemma SectionsContentsClean(doc: Document, minLen: int)
    ensures ContentsClean(Sections(doc, minLen))
  {
    var answers := Answers(doc);
    forall k | 0 <= k < |answers|
      ensures IsCleanAnswer(answers[k])
    {
      CleanAnswerIsClean(Join(Gather(doc[k + 1..]), "\n\n"));
    }
    SectionsWithClean(doc, answers, minLen);
  }

  function Fetched(urls: seq<string>, fetch: string -> Option<Document>): seq<Option<Document>>
  {
    seq(|urls|, i requires 0 <= i < |urls| => fetch(urls[i]))
  }

  /** The scraper object: its URLs, its threshold and the state it accumulates. */
  class Parser {
    const urls: seq<string>
    const minHeadingLength: int
    var allQaPairs: seq<QaPair>
    var seenQuestions: set<string>
    var skippedCount: int

    function State(): ParserState
      reads this
    {
      ParserState(allQaPairs, seenQuestions, skippedCount)
    }

    predicate Valid()
      reads this
    {
      Inv(State())
    }

    constructor (urls: seq<string>, minHeadingLength: int)
      ensures Valid()
      ensures this.urls == urls && this.minHeadingLength == minHeadingLength
      ensures allQaPairs == [] && seenQuestions == {} && skippedCount == 0
    {
      this.urls := urls;
      this.minHeadingLength := minHeadingLength;
      allQaPairs := [];
      seenQuestions := {};
      skippedCount := 0;
    }

    method ExtractHeadingsAndContent(doc: Document) returns (headings: seq<string>, contents: seq<string>)
      requires Valid()
      modifies this`skippedCount
      ensures Valid()
      ensures var e := Sections(doc, minHeadingLength);
        headings == e.headings && contents == e.contents &&
        skippedCount == old(skippedCount) + e.skipped
    {
      headings, contents := [], [];
      ghost var answers := Answers(doc);
      ghost var target := SectionsWith(doc, answers, minHeadingLength);
      ghost var suffix := target;
      var i := 0;
      while i < |doc|
        invariant 0 <= i <= |doc|
        invariant suffix == SectionsWith(doc[i..], answers[i..], minHeadingLength)
        invariant headings + suffix.headings == target.headings
        invariant contents + suffix.contents == target.contents
        invariant skippedCount + suffix.skipped == old(skippedCount) + target.skipped
      {
        ghost var next := SectionsWith(doc[i + 1..], answers[i + 1..], minHeadingLength);
        SectionsStep(doc, answers, i, minHeadingLength);
        if !doc[i].Heading? || |doc[i].text| < minHeadingLength {
          i := i + 1;
          suffix := next;
          continue;
        }
        var headingText := doc[i].text;
        var contentBlocks := CollectBlocks(doc, i + 1);
        var rawAnswer := Join(contentBlocks, "\n\n");
        var cleanedAnswer := CleanAnswerText(rawAnswer);
        assert cleanedAnswer == answers[i];
        if Strip(cleanedAnswer) != "" {
          assert suffix.headings == [headingText] + next.headings;
          assert suffix.contents == [cleanedAnswer] + next.contents;
          AppendAssoc(headings, [headingText], next.headings);
          AppendAssoc(contents, [cleanedAnswer], next.contents);
          headings := headings + [headingText];
          contents := contents + [cleanedAnswer];
        } else {
          skippedCount := skippedCount + 1;
        }
        i := i + 1;
        suffix := next;
      }
      assert doc[i..] == [] && answers[i..] == [];
    }

    /**
     * The inner loop of `extract_headings_and_content`: the content blocks
     * of the siblings from `start` on, up to the next heading.
     */
    static method CollectBlocks(doc: Document, start: nat) returns (blocks: seq<string>)
      requires start <= |doc|
      ensures blocks == Gather(doc[start..])
    {
      blocks := [];
      var j := start;
      while j < |doc|
        invariant start <= j <= |doc|
        invariant blocks + Gather(doc[j..]) == Gather(doc[start..])
      {
        GatherStep(doc, j);
        if doc[j].Heading? {
          break;
        }
        var block := Block(doc[j]);
        AppendAssoc(blocks, BlockSeq(doc[j]), Gather(doc[j + 1..]));
        if block.Some? {
          blocks := blocks + [block.value];
        } else {
          assert blocks + BlockSeq(doc[j]) == blocks;
        }
        j := j + 1;
      }
      assert Gather(doc[j..]) == [];
    }

    method GenerateQaPairs(headings: seq<string>, paragraphs: seq<string>) returns (qaPairs: seq<QaPair>)
      requires Valid()
      modifies this`seenQuestions
      ensures Valid()
      ensures qaPairs == Generated(headings, paragraphs, old(seenQuestions))
      ensures seenQuestions == old(seenQuestions) + Questions(qaPairs)
    {
      qaPairs := [];
      ghost var idx: seq<nat> := [];
      for i := 0 to |headings|
        invariant forall k :: 0 <= k < |idx| ==> idx[k] < i
        invariant idx + Kept(headings, seenQuestions, i) == Kept(headings, old(seenQuestions), 0)
        invariant qaPairs == PairsAt(headings, paragraphs, idx)
        invariant seenQuestions == old(seenQuestions) + Questions(qaPairs)
      {
        var question := Question(headings[i]);
        if question in seenQuestions {
          continue;
        }
        var answer := if i < |paragraphs| then paragraphs[i] else "No content available.";
        GenerateStep(headings, paragraphs, old(seenQuestions), seenQuestions, idx, i, qaPairs);
        qaPairs := qaPairs + [QaPair(question, answer)];
        seenQuestions := seenQuestions + {question};
        idx := idx + [i];
      }
    }

    method Scrape(fetch: string -> Option<Document>)
      requires Valid()
      modifies this
      ensures Valid()
      ensures State() == ScrapeDocs(old(State()), minHeadingLength, Fetched(urls, fetch))
    {
      ghost var pages := Fetched(urls, fetch);
      for i := 0 to |urls|
        invariant Valid()
        invariant ScrapeDocs(State(), minHeadingLength, pages[i..]) == ScrapeDocs(old(State()), minHeadingLength, pages)
      {
        assert pages[i..][1..] == pages[i + 1..];
        ghost var before := State();
        var soup := fetch(urls[i]);
        if soup.Some? {
          var headings, paragraphs := ExtractHeadingsAndContent(soup.value);
          var qaPairs := GenerateQaPairs(headings, paragraphs);
          allQaPairs := allQaPairs + qaPairs;
          assert State() == ProcessDoc(before, minHeadingLength, soup.value);
          ProcessDocKeepsInv(before, minHeadingLength, soup.value);
        }
        assert State() == ScrapeStep(before, minHeadingLength, pages[i]);
      }
    }
  }
}
