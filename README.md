# NIPS documentation question answering — a Dafny model

This project models the core of a small retrieval-augmented question-answering system built over the NIPS documentation pages.

It has three parts:

- **`NIPSGitHubFetcher.parse_nips_urls`** reads the `NIPS_URLS = [...]` list out of the text of a Python file, line by line. Module `NipsUrls`, file `nips_urls.dfy`.
- **`NIPSParser`** turns fetched documentation pages into question/answer pairs. Every long enough heading gives the question "What does <heading> mean?". Its answer is the cleaned text of the blocks under it, up to the next heading. A question already produced is never produced again. Modules `NipsParser` (file `nips_parser.dfy`) and `AnswerText` (`clean_answer_text`, file `answer_text.dfy`).
- **`NIPSQA`** loads the question/answer records one per line and embeds each record's combined text into a flat vector index. It maps every index position back to its record, looks up the positions a search returns, and wraps the records into a fixed prompt. Module `QaNips`, file `qa_nips.dfy`.

Two support modules sit underneath:

- `PyStr` (`pystr.dfy`) defines the Python string operations the code relies on: `str.isspace`, `strip()`, `strip(c)`, `splitlines()` with Python's full set of line boundaries, and `join`.
- `Types` (`types.dfy`) defines `Option`, `Result` and the question/answer record `QaPair`.

State the source changes in place is modelled as state:

- `NIPSParser` is the class `NipsParser.Parser`. Its fields are `all_qa_pairs`, `seen_questions` and `skipped_count`.
- `NIPSQA` is the class `QaNips.NipsQa`. Its fields are `data`, `index_to_qa` and the index vectors.
- The loops that update the parser, the index or a result list are methods with loop invariants. Most are proved equal to a specification function: `Sections`, `Gather`, `Generated`, `ScrapeDocs`, `Scan`, `PositionMap` and `Embeddings`. What the source promises is then proved about those functions as lemmas. `QaNips.LoadDataset` is the exception: its contract states the records and the error position directly.
- The loop of `compose_prompt` only appends to a local string, so it is the recursive function `QaNips.Context`. `Context` renders each pair with `QaNips.Entry` (src/nips_chat/qa_nips.py:88-89), and the question part is `QaNips.Footer` (lines 95-96).
- Other small helpers follow single source lines and are covered by the rows of the lemmas that use them:
  - `NipsUrls.CleanUrl` is the triple `strip` of src/nips_docs/nips_github_private_repo.py:68 (see `CleanUrlOfItem`).
  - `QaNips.CombinedText` is the text embedded per record, src/nips_chat/qa_nips.py:47 (see `BuildFaissIndex`).
  - `NipsParser.Question` and `NipsParser.AnswerFor` are the question and answer of src/nips_docs/nips_parser.py:146 and 151 (see `GeneratedPairs`).
  - `NipsParser.ProcessDoc` is one page of `scrape`, src/nips_docs/nips_parser.py:165-168 (see `ProcessDocKeepsInv`).

Calls into code the model cannot see are parameters:

- The page fetch (HTTP, Markdown to HTML, BeautifulSoup) is `fetch: string -> Option<Document>`. A page is the sequence of its top-level elements.
- `json.loads` is `parse: string -> Option<QaPair>`.
- The sentence embedder is `embed: string -> seq<real>`.
- The vector search is `search`, which returns positions.

A blank line of the dataset file is not skipped. `_load_dataset` passes every line to `json.loads`, so a blank line aborts the load. `QaNips.LoadDataset` returns the error for the first line that does not parse, whatever that line holds.

## Model

| member | source | states |
|---|---|---|
| NipsUrls.ParseNipsUrls | src/nips_docs/nips_github_private_repo.py:44-74 | The loop's result is exactly the scan specification `ParseResult`. A success holds at least one URL, and never more URLs than the text has characters. |
| NipsUrls.ParseResult | src/nips_docs/nips_github_private_repo.py:71-74 | An empty URL list is reported as the error "No URLs found in NIPS_URLS list!". A success is never empty. |
| NipsUrls.Scan | src/nips_docs/nips_github_private_repo.py:57-69 | At most one URL per line. |
| NipsUrls.ScanSkipsToHeader | nips_docs/nips_github_private_repo.py:57-61 | Everything up to and including the first header line (`NIPS_URLS` and `=`) contributes no URL. The scan continues inside the list after it. |
| NipsUrls.NoHeaderNoUrls | src/nips_docs/nips_github_private_repo.py:59-72 | Without a header line no URL is collected, so the result is the error. |
| NipsUrls.ScanStopsAtClose | nips_docs/nips_github_private_repo.py:63-65 | Inside the list the scan ends at any line starting with `]`, whatever the lines before it hold. Lines after it, whatever they hold, change nothing. |
| NipsUrls.ScanCollectsQuoted | src/nips_docs/nips_github_private_repo.py:63-69 | Inside the list and before any closing line, every line starting with a quote yields its cleaned URL, in place between the URLs of the lines before and after it. |
| NipsUrls.ScanFromQuotedLines | nips_docs/nips_github_private_repo.py:67-69 | Every URL is the cleaned text of a stripped line starting with a quote. The URLs come in the order of their lines, at strictly increasing line positions. |
| NipsUrls.CleanUrlOfItem | nips_docs/nips_github_private_repo.py:68 | Round trip: a list item written `"u",` or `'u',` is read back as `u` when `u` does not itself begin or end with a comma or quote. |
| NipsUrls.HeaderOnlyIsError | src/nips_docs/nips_github_private_repo.py:57-72 | A text made of the header line alone yields the error. |
| NipsUrls.OneLineListIsError | src/nips_docs/nips_github_private_repo.py:59-61 | A list written on the header's own line, `NIPS_URLS = ["a"]`, yields no URL: the header line is never read as an item. |
| NipsParser.Parser.constructor | src/nips_docs/nips_parser.py:24-36 | The parser starts with its URLs and threshold, no pairs, no seen questions and a skip count of 0. This satisfies the invariant. |
| NipsParser.Block | src/nips_docs/nips_parser.py:85-100 | A sibling adds a block exactly when it is a paragraph, a list, a `pre` or an inline `code`. A heading or any other tag adds nothing. |
| NipsParser.Parser.CollectBlocks | src/nips_docs/nips_parser.py:79-100 | The inner loop collects exactly `Gather` of the siblings: the blocks of the elements after the heading, up to the next heading. |
| NipsParser.GatherStopsAtHeading | src/nips_docs/nips_parser.py:81-83 | Gathering stops at the next heading. Nothing after that heading enters the answer. |
| NipsParser.Parser.ExtractHeadingsAndContent | src/nips_docs/nips_parser.py:61-111 | The loop returns exactly the headings and contents of `Sections`. The skip count grows by exactly the number of sections `Sections` skips. The parser invariant is kept. |
| NipsParser.Gather | src/nips_docs/nips_parser.py:81-100 | A heading's blocks are no more than the siblings that follow it. `CollectBlocks` is proved equal to it and `GatherStopsAtHeading` bounds it. |
| NipsParser.AddSection | src/nips_docs/nips_parser.py:74-111 | Adding one element keeps the heading and content lists of equal length. `AddSectionShape` and `AddSectionAt` say what it adds. |
| NipsParser.Sections | src/nips_docs/nips_parser.py:74-111 | `extract_headings_and_content` as a function: the headings and contents it returns have equal length. `SectionsExact` says which sections they are. |
| NipsParser.SectionsExact | src/nips_docs/nips_parser.py:74-111 | The kept sections are exactly the positions, in document order, of the headings at least the threshold long whose cleaned answer is not blank. Each gives its heading text and the cleaned answer of the blocks up to the next heading. The skip count is exactly the number of such headings whose answer is blank. |
| NipsParser.SectionsShape | src/nips_docs/nips_parser.py:74-111 | Headings and contents have equal length. Every kept heading is at least the threshold long and its content is not blank. Every heading at least the threshold long is either kept or counted as skipped, and shorter ones are neither. |
| NipsParser.SectionsContentsClean | src/nips_docs/nips_parser.py:102-107 | Every kept content is a cleaned text: no "\r", no surrounding whitespace, no "\n\n\n". |
| NipsParser.KeptFresh | src/nips_docs/nips_parser.py:145-149 | The headings kept by `generate_qa_pairs` lie in range, in increasing order. None of their questions was seen before. |
| NipsParser.KeptDistinct | src/nips_docs/nips_parser.py:145-153 | No two kept headings give the same question: the question is remembered as soon as it is produced. |
| NipsParser.KeptComplete | src/nips_docs/nips_parser.py:145-153 | Every heading whose question was not seen before has its question produced at some kept position. |
| NipsParser.KeptFirst | src/nips_docs/nips_parser.py:145-153 | A kept position is the first heading, from where the loop starts, that carries its question: of several equal headings the first one wins. |
| NipsParser.Kept | src/nips_docs/nips_parser.py:144-155 | The positions whose question is produced lie in range, in strictly increasing order, and there are no more of them than headings. |
| NipsParser.Generated | src/nips_docs/nips_parser.py:144-155 | `generate_qa_pairs` as a function: no more pairs than headings. `GeneratedPairs` states what each pair is. |
| NipsParser.GeneratedPairs | src/nips_docs/nips_parser.py:133-155 | Each pair is ("What does <heading> mean?", the paragraph at the heading's position, or "No content available." past the end). Headings are taken in order. No pair repeats a seen question, no two pairs share a question, every unseen question is produced, and there are at most as many pairs as headings. Of several headings with the same question the first is kept, so its paragraph is the answer. |
| NipsParser.Parser.GenerateQaPairs | src/nips_docs/nips_parser.py:133-155 | The loop returns exactly `Generated`. The seen set grows by exactly the returned questions, and the parser invariant is kept. |
| NipsParser.ProcessDocKeepsInv | src/nips_docs/nips_parser.py:165-168 | Processing one page keeps the invariant: all collected questions are distinct and remembered. Earlier pairs stay in place, the seen set only grows, and the skip count never drops. |
| NipsParser.ScrapeKeepsInv | src/nips_docs/nips_parser.py:157-168 | Scraping any sequence of pages keeps the invariant. It only extends the pairs, only grows the seen set, and never lowers the skip count. |
| NipsParser.ScrapeDocs | src/nips_docs/nips_parser.py:163-168 | `scrape` over the fetched pages: the pairs only grow, the seen set only grows and the skip count never drops. `ScrapeKeepsInv` and `ScrapeAppend` are its partners. |
| NipsParser.ScrapeAppend | src/nips_docs/nips_parser.py:163-168 | Scraping two lists of URLs one after the other is scraping their concatenation. |
| NipsParser.ScrapeIgnoresFailures | src/nips_docs/nips_parser.py:164-165 | A page whose fetch failed contributes nothing. Only the fetched pages matter. |
| NipsParser.Parser.Scrape | src/nips_docs/nips_parser.py:157-168 | The parser's new state is `ScrapeDocs` of its old state over the pages fetched for its URLs, in URL order. The invariant is kept. |
| AnswerText.Normalize | src/nips_docs/nips_parser.py:128 | After replacing "\r\n" and then "\r" by "\n", no "\r" is left. A text without "\r" is unchanged. |
| AnswerText.CollapseBlankRuns | src/nips_docs/nips_parser.py:129 | `re.sub(r'\n\s*\n\s*\n+', '\n\n', ...)`: a text without "\n" is unchanged. `MatchEnd` finds the greedy match at a position. |
| AnswerText.MatchEnd | src/nips_docs/nips_parser.py:129 | A match of the pattern, when one starts at the head of the text, fits in the text and begins and ends with "\n". |
| AnswerText.CleanAnswerTextAsWritten | src/nips_docs/nips_parser.py:128-131 | `clean_answer_text` as the source writes it: the result is stripped. `CleanAsWrittenShape` says more. |
| AnswerText.CleanAnswerText | src/nips_docs/nips_parser.py:128-131 | The corrected clean, collapsing blank lines after `splitlines()`: the result is stripped. `CleanShape`, `CleanIdempotent` and `CleanAgrees` say more. |
| CleanAgreement.CleanAgrees | src/nips_docs/nips_parser.py:128-131 | On a text whose line breaks are all "\n" or "\r", the corrected clean gives exactly what the code as written gives. |
| AnswerText.CleanAsWrittenShape | src/nips_docs/nips_parser.py:128-131 | `clean_answer_text` as written returns a text without "\r", stripped as a whole and with every line stripped. |
| AnswerText.AsWrittenKeepsOtherBreaks | src/nips_docs/nips_parser.py:129-130 | On lines joined by a break other than "\n" or "\r", such as a form feed, the code as written keeps every empty line between two lines. |
| AnswerText.TripleNewlineSurvives | src/nips_docs/nips_parser.py:129-130 | Counterexample: "a\f\f\fb" cleans to "a\n\n\nb". That result holds a triple newline, and cleaning it again gives "a\n\nb". |
| AnswerText.CleanShape | src/nips_docs/nips_parser.py:114-131 | The corrected clean returns a text without "\r", stripped, every line stripped and free of line breaks. It has no two consecutive empty lines and no "\n\n\n". |
| AnswerText.CleanIdempotent | src/nips_docs/nips_parser.py:114-131 | Cleaning a cleaned text with the corrected clean changes nothing. |
| QaNips.LoadDataset | src/nips_chat/qa_nips.py:22-33 | Success holds iff every line parses. The records then follow the lines one for one, in file order. On failure the reported index is the first line that does not parse. |
| QaNips.NipsQa.constructor | src/nips_chat/qa_nips.py:16-20 | After construction the index and dictionary are built over the given records. |
| QaNips.NipsQa.BuildFaissIndex | src/nips_chat/qa_nips.py:35-55 | The dictionary's keys are exactly 0 .. n-1 and key k holds record k. The index holds one vector per record, in dataset order: the embedding of "Question: <q> Answer: <a>". |
| QaNips.PositionMapExact | src/nips_chat/qa_nips.py:46-50 | The position dictionary has exactly the keys 0 .. n-1. Every value is the record at its key, hence a record of the dataset. |
| QaNips.Lookup | src/nips_chat/qa_nips.py:72 | Looking up positions succeeds iff each is a key. The records then come in the order of the positions. Otherwise the first missing position is reported, as the `KeyError` would. |
| QaNips.NipsQa.RetrieveTopK | src/nips_chat/qa_nips.py:57-74 | Success holds iff every position the search returns lies in 0 .. n-1. The result is then the records at those positions, in search order, each a record of the dataset. |
| QaNips.ComposePrompt | src/nips_chat/qa_nips.py:76-98 | The prompt is exactly as long as the fixed header, the context and the question part together. `PromptParts` says where each part sits. |
| QaNips.ContextAppend | src/nips_chat/qa_nips.py:87-89 | The context of a concatenation of pair lists is the concatenation of their contexts. |
| QaNips.ContextAt | src/nips_chat/qa_nips.py:87-89 | The context is the entries "Q: <q>\nA: <a>\n\n" of the pairs one after the other, in order. Each pair's entry sits between the context of those before it and the context of those after it. |
| QaNips.PromptParts | src/nips_chat/qa_nips.py:91-97 | The prompt is the fixed header, then exactly the context, then "User Question: <q>\nAnswer:". The user question can be read back from fixed offsets. |
| QaNips.EmptyContextPrompt | src/nips_chat/qa_nips.py:87-97 | With nothing retrieved the prompt is the header followed directly by the question part. |
| QaNips.PromptDeterminesQuestion | src/nips_chat/qa_nips.py:91-97 | Over the same pairs, different user questions give different prompts. |

## Left out

- `NIPSParser.fetch_and_parse` (HTTP request, Markdown to HTML, BeautifulSoup) is the parameter `fetch`. A page is the flat sequence of its top-level elements. Headings nested inside other tags, which `find_all` would also find, are not modelled.
- `get_text` is taken as given: every element carries the text the parser reads from it.
- `NIPSParser.save_to_jsonl` and `save_to_csv` write files and are not modelled. The progress bar and `print` calls are not modelled either.
- `NIPSGitHubFetcher.fetch_urls_file_content` and `fetch_nips_urls` are not modelled: they are a GitHub API call and base64 decoding. `parse_nips_urls` is modelled on the decoded text.
- The SentenceTransformer embedder and the FAISS index are the parameters `embed` and `search`. The vector dimension, float32 conversion, distances, ranking, tie-breaking and the result count for a given `k` are not modelled. The default `k = 3` is not modelled either.
- `json.loads` is the parameter `parse`. A record that parses but lacks `question` or `answer` is not modelled; the source fails on it later with `KeyError`.
- Opening and reading the dataset file is not modelled. The model starts from its lines.
- `QaNips.NipsQa.constructor` takes the loaded records rather than a file path. Loading is `QaNips.LoadDataset`, and a load error means no object is built.
- `NipsParser.Parser.ExtractHeadingsAndContent` uses the corrected `AnswerText.CleanAnswerText` (see Findings). It can differ from the code as written only on answers holding a line break other than "\n" or "\r" (such as a form feed). On every other answer `CleanAgreement.CleanAgrees` proves the two the same.
- `NipsParser.Parser.constructor` takes the heading threshold as a parameter. The default `min_heading_length=3` is not modelled; the command-line entry point always passes a value.
- `QaNips.NipsQa.BuildFaissIndex` builds an empty index over an empty dataset. The source hands FAISS an array of shape `(0,)` there, which FAISS presumably rejects; that error is not modelled.

## Findings

| source | as written | input that shows it | evidently intended | confidence | as-written member | corrected member |
|---|---|---|---|---|---|---|
| src/nips_docs/nips_parser.py:129-130 | The regular expression collapses runs of blank lines only where the breaks are "\n". But `splitlines()` also breaks at "\v", "\f", "\x1c"-"\x1e", "\x85", U+2028 and U+2029, and the join then turns those breaks into "\n" after the collapse. | "a\f\f\fb" cleans to "a\n\n\nb", which still holds three newlines; cleaning it again gives "a\n\nb". | Several blank lines collapse into one whatever the line break, so cleaning is idempotent. | not executed | AnswerText.TripleNewlineSurvives | AnswerText.CleanAnswerText |
