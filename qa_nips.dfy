/**
 * `NIPSQA`: retrieval-augmented question answering over the question/answer
 * records the parser produced. The records are loaded one per line, each is
 * embedded as "Question: <q> Answer: <a>" and added to a flat vector index,
 * and a dictionary maps every index position back to its record. A query
 * is answered by searching the index for positions, looking the positions
 * up, and wrapping the records found into a fixed prompt template.
 *
 * The sentence embedder is the function `embed`; the vector search is the
 * oracle `search`, which returns positions. Distances and tie-breaking
 * belong to the vector library and are not modelled.
 */
module QaNips {
  import opened Types

  /** An embedding vector, as the embedder produces it. */
  type Embedding = seq<real>

  /**
   * `_load_dataset`: every line of the file is parsed (`parse` stands for
   * `json.loads`) and appended in file order. The first line that does not
   * parse aborts the load; its index is reported.
   */
  method LoadDataset(lines: seq<string>, parse: string -> Option<QaPair>) returns (r: Result<seq<QaPair>, nat>)
    ensures r.Ok? <==> forall i :: 0 <= i < |lines| ==> parse(lines[i]).Some?
    ensures r.Ok? ==> (|r.value| == |lines| &&
      forall i :: 0 <= i < |lines| ==> parse(lines[i]) == Some(r.value[i]))
    ensures r.Err? ==> (r.error < |lines| && parse(lines[r.error]).None? &&
      forall i :: 0 <= i < r.error ==> parse(lines[i]).Some?)
  {
    var data: seq<QaPair> := [];
    for i := 0 to |lines|
      invariant |data| == i
      invariant forall j :: 0 <= j < i ==> parse(lines[j]) == Some(data[j])
    {
      var item := parse(lines[i]);
      if item.None? {
        return Err(i);
      }
      data := data + [item.value];
    }
    return Ok(data);
  }

  /** The text embedded for a record. */
  function CombinedText(item: QaPair): string
  {
    "Question: " + item.question + " Answer: " + item.answer
  }

  /** The position-to-record dictionary of a dataset. */
  function PositionMap(data: seq<QaPair>): (m: map<int, QaPair>)
  {
    map k | 0 <= k < |data| :: data[k]
  }

  /** The vectors added to the index, one per record, in dataset order. */
  function Embeddings(data: seq<QaPair>, embed: string -> Embedding): (v: seq<Embedding>)
  {
    seq(|data|, k requires 0 <= k < |data| => embed(CombinedText(data[k])))
  }

  /** The dictionary has exactly the keys `0 .. |data| - 1`, and key `k` holds `data[k]`. */
  lemma PositionMapExact(data: seq<QaPair>)
    ensures forall k :: k in PositionMap(data) <==> 0 <= k < |data|
    ensures forall k :: 0 <= k < |data| ==> PositionMap(data)[k] == data[k]
    ensures forall k :: k in PositionMap(data) ==> PositionMap(data)[k] in data
  {
  }

  /**
   * Looking up the positions the search returned, in the order returned.
   * A position that is not a key (the search pads with -1 when it finds
   * fewer than `k` vectors) raises `KeyError`; the first one is reported.
   */
  function Lookup(table: map<int, QaPair>, positions: seq<int>): (r: Result<seq<QaPair>, int>)
    ensures r.Ok? <==> forall j :: 0 <= j < |positions| ==> positions[j] in table
    ensures r.Ok? ==> (|r.value| == |positions| &&
      forall j :: 0 <= j < |positions| ==> positions[j] in table && r.value[j] == table[positions[j]])
    ensures r.Err? ==> (r.error !in table &&
      exists j :: 0 <= j < |positions| && positions[j] == r.error &&
        forall i :: 0 <= i < j ==> positions[i] in table)
  {
    if positions == [] then Ok([])
    else if positions[0] !in table then Err(positions[0])
    else
      match Lookup(table, positions[1..])
      case Ok(rest) => Ok([table[positions[0]]] + rest)
      case Err(p) =>
        var j :| 0 <= j < |positions[1..]| && positions[1..][j] == p &&
          forall i :: 0 <= i < j ==> positions[1..][i] in table;
        assert positions[j + 1] == p;
        Err(p)
  }

  /** The retrieval state of `NIPSQA`. */
  class NipsQa {
    const embed: string -> Embedding
    var data: seq<QaPair>
    var indexToQa: map<int, QaPair>
    var index: seq<Embedding>

    /** What `_build_faiss_index` establishes. */
    predicate Indexed()
      reads this
    {
      indexToQa == PositionMap(data) && index == Embeddings(data, embed)
    }

    /** `__init__`, given the records `_load_dataset` produced. */
    constructor (data: seq<QaPair>, embed: string -> Embedding)
      ensures this.data == data && this.embed == embed
      ensures Indexed()
    {
      this.data := data;
      this.embed := embed;
      indexToQa := map[];
      index := [];
      new;
      BuildFaissIndex();
    }

    /**
     * `_build_faiss_index`: one embedding of the combined text per record,
     * in dataset order, and every record under its position.
     */
    method BuildFaissIndex()
      modifies this`indexToQa, this`index
      ensures Indexed()
      ensures forall k :: k in indexToQa <==> 0 <= k < |data|
      ensures forall k :: 0 <= k < |data| ==> indexToQa[k] == data[k]
      ensures |index| == |data| && forall k :: 0 <= k < |data| ==> index[k] == embed(CombinedText(data[k]))
    {
      var table: map<int, QaPair> := map[];
      var embeddings: seq<Embedding> := [];
      for i := 0 to |data|
        invariant table == PositionMap(data[..i])
        invariant embeddings == Embeddings(data[..i], embed)
      {
        var combinedText := CombinedText(data[i]);
        var embedding := embed(combinedText);
        embeddings := embeddings + [embedding];
        table := table[i := data[i]];
        assert data[..i + 1][..i] == data[..i];
      }
      assert data[..|data|] == data;
      index := embeddings;
      indexToQa := table;
    }

    /**
     * `retrieve_top_k`: the query is embedded, the index searched for `k`
     * positions, and the positions looked up in order.
     */
    function RetrieveTopK(query: string, k: int, search: (seq<Embedding>, Embedding, int) -> seq<int>): (r: Result<seq<QaPair>, int>)
      reads this
      requires Indexed()
      ensures var positions := search(index, embed(query), k);
        && (r.Ok? <==> forall j :: 0 <= j < |positions| ==> 0 <= positions[j] < |data|)
        && (r.Ok? ==> (|r.value| == |positions| &&
              forall j :: 0 <= j < |positions| ==> r.value[j] == data[positions[j]] && r.value[j] in data))
    {
      PositionMapExact(data);
      Lookup(indexToQa, search(index, embed(query), k))
    }
  }

  const Header: string := "You are a helpful assistant specialized in the NIPS documentation.\n\nHere is some relevant context:\n\n"

  /** The rendering of one retrieved pair. */
  function Entry(pair: QaPair): string
  {
    "Q: " + pair.question + "\nA: " + pair.answer + "\n\n"
  }

  /** The context block: every pair rendered, in the order given. */
  function Context(pairs: seq<QaPair>): string
  {
    if pairs == [] then "" else Entry(pairs[0]) + Context(pairs[1..])
  }

  function Footer(userQuestion: string): string
  {
    "User Question: " + userQuestion + "\nAnswer:"
  }

  /** `compose_prompt`. */
  function ComposePrompt(userQuestion: string, pairs: seq<QaPair>): (prompt: string)
    ensures |prompt| == |Header| + |Context(pairs)| + |Footer(userQuestion)|
  {
    Header + Context(pairs) + Footer(userQuestion)
  }

  /** The context of a concatenation is the concatenation of the contexts. */
  lemma {:induction false} ContextAppend(xs: seq<QaPair>, ys: seq<QaPair>)
    ensures Context(xs + ys) == Context(xs) + Context(ys)
  {
    if xs == [] {
      assert xs + ys == ys;
    } else {
      assert (xs + ys)[1..] == xs[1..] + ys;
      ContextAppend(xs[1..], ys);
    }
  }

  /** The context is exactly the entries of the pairs, one after the other, in order. */
  lemma ContextAt(pairs: seq<QaPair>, j: nat)
    requires j < |pairs|
    ensures Context(pairs) == Context(pairs[..j]) + Entry(pairs[j]) + Context(pairs[j + 1..])
  {
    assert pairs == pairs[..j] + pairs[j..];
    ContextAppend(pairs[..j], pairs[j..]);
    assert pairs[j..][1..] == pairs[j + 1..];
  }

  /**
   * The prompt starts with the fixed header, ends with the user question
   * and "Answer:", and holds the context in between; both the question and
   * the context can be read back from it.
   */
  lemma PromptParts(userQuestion: string, pairs: seq<QaPair>)
    ensures var prompt := ComposePrompt(userQuestion, pairs);
      var n := |Header| + |Context(pairs)|;
      && prompt[..|Header|] == Header
      && prompt[|Header|..n] == Context(pairs)
      && prompt[n..] == Footer(userQuestion)
      && prompt[n + 15..|prompt| - 8] == userQuestion
  {
    var prompt := ComposePrompt(userQuestion, pairs);
    var n := |Header| + |Context(pairs)|;
    assert prompt[n..] == Footer(userQuestion);
    assert Footer(userQuestion)[15..|Footer(userQuestion)| - 8] == userQuestion;
  }

  /** With nothing retrieved the prompt is the header followed by the question part. */
  lemma EmptyContextPrompt(userQuestion: string)
    ensures ComposePrompt(userQuestion, []) == Header + "User Question: " + userQuestion + "\nAnswer:"
  {
  }

  /** Different questions over the same pairs give different prompts. */
  lemma PromptDeterminesQuestion(q1: string, q2: string, pairs: seq<QaPair>)
    requires ComposePrompt(q1, pairs) == ComposePrompt(q2, pairs)
    ensures q1 == q2
  {
    PromptParts(q1, pairs);
    PromptParts(q2, pairs);
  }
}
