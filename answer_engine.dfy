/**
 * The answer engine of the API service: hybrid retrieval results, the
 * context builder, the request sent to the generation service and the
 * two-branch answer policy.
 */
module AnswerEngine {
  import opened Wrappers
  import opened Text
  import opened Dataset

  const TableSource := "table: air_quality_cleaned"
  const NotAvailable := "Data not available in the dataset."
  const FallbackConfidence: real := 0.20
  const AnswerConfidence: real := 0.83
  /** `top_k` of the vector search and the `LIMIT` of the keyword query. */
  const TopK: nat := 3
  const KeywordLimit: nat := 3
  const OllamaModel := "mistral"
  const SystemInstruction := "You are a strict data analyst. Never use outside knowledge."

  // ---------------- Hybrid search ----------------

  /**
   * `gold_df.iloc[I[0]]`: the rows at the positions the vector index
   * returned, in that order. `gold_df` comes from `fetchdf()`, so its
   * index labels are the dataset positions themselves.
   */
  function VectorHits(table: seq<Row>, indices: seq<int>): (hits: seq<Labelled>)
    requires forall j :: 0 <= j < |indices| ==> 0 <= indices[j] < |table|
    ensures |hits| == |indices|
    ensures forall j :: 0 <= j < |hits| ==> hits[j].index == indices[j] && hits[j].row == table[indices[j]]
  {
    seq(|indices|, j requires 0 <= j < |indices| => Labelled(indices[j], table[indices[j]]))
  }

  /**
   * The keyword query: the rows whose city matches, in store order, cut at
   * `LIMIT 3`. The result is a fresh `fetchdf()` frame, so its labels are
   * 0, 1, 2 and not dataset positions.
   */
  function KeywordHits(matches: seq<Row>): (hits: seq<Labelled>)
    ensures |hits| == if |matches| <= KeywordLimit then |matches| else KeywordLimit
    ensures forall j :: 0 <= j < |hits| ==> hits[j].index == j && hits[j].row == matches[j]
  {
    var limited := if |matches| <= KeywordLimit then matches else matches[..KeywordLimit];
    seq(|limited|, j requires 0 <= j < |limited| => Labelled(j, limited[j]))
  }

  /** The shape of `hybrid_search`'s two result frames. */
  lemma HybridSearchShape(table: seq<Row>, indices: seq<int>, matches: seq<Row>)
    requires |indices| == TopK
    requires forall j :: 0 <= j < |indices| ==> 0 <= indices[j] < |table|
    ensures var vector, keyword := VectorHits(table, indices), KeywordHits(matches);
      && |vector| == TopK
      && |keyword| <= KeywordLimit
      && (|keyword| == KeywordLimit <==> |matches| >= KeywordLimit)
      && |vector| + |keyword| <= TopK + KeywordLimit
      && (forall j :: 0 <= j < |vector| ==> vector[j].index == indices[j] && vector[j].row == table[indices[j]])
      && (forall j :: 0 <= j < |keyword| ==> keyword[j].index == j && keyword[j].row == matches[j])
  {
  }

  // ---------------- Context builder ----------------

  /** The evidence line of one row. */
  function RenderLine(row: Row): (line: string)
    ensures StartsWith(line, "City: ")
  {
    "City: " + row.city + " | PM2.5: " + row.pm25.text + " | PM10: " + row.pm10.text
      + " | NO2: " + row.no2.text + " | Date: " + row.date.text
  }

  function SourceLabel(index: nat): (tag: string)
    ensures StartsWith(tag, "row_id: ")
  {
    "row_id: " + NatToString(index)
  }

  function Lines(hits: seq<Labelled>): (lines: seq<string>) {
    seq(|hits|, k requires 0 <= k < |hits| => RenderLine(hits[k].row))
  }

  function Labels(hits: seq<Labelled>): (labels: seq<string>) {
    seq(|hits|, k requires 0 <= k < |hits| => SourceLabel(hits[k].index))
  }

  /** The context text: every evidence line, vector hits first, joined by newlines. */
  function Context(vector: seq<Labelled>, keyword: seq<Labelled>): (context: string) {
    Join(Lines(vector) + Lines(keyword), "\n")
  }

  /** The source labels, parallel to the context lines. */
  function Sources(vector: seq<Labelled>, keyword: seq<Labelled>): (sources: seq<string>) {
    Labels(vector) + Labels(keyword)
  }

  /**
   * `build_context`: one pass over the vector hits, then one over the
   * keyword hits, appending a line and a label per hit; nothing is
   * deduplicated.
   */
  method BuildContext(vectorResults: seq<Labelled>, sqlResults: seq<Labelled>)
    returns (context: string, sources: seq<string>)
    ensures context == Context(vectorResults, sqlResults)
    ensures sources == Sources(vectorResults, sqlResults)
    ensures |sources| == |vectorResults| + |sqlResults|
    ensures forall i :: 0 <= i < |vectorResults| ==> sources[i] == SourceLabel(vectorResults[i].index)
    ensures forall j :: 0 <= j < |sqlResults| ==>
              sources[|vectorResults| + j] == SourceLabel(sqlResults[j].index)
  {
    var rows: seq<string> := [];
    sources := [];
    for i := 0 to |vectorResults|
      invariant rows == Lines(vectorResults[..i])
      invariant sources == Labels(vectorResults[..i])
    {
      rows := rows + [RenderLine(vectorResults[i].row)];
      sources := sources + [SourceLabel(vectorResults[i].index)];
    }
    assert vectorResults[..|vectorResults|] == vectorResults;
    for j := 0 to |sqlResults|
      invariant rows == Lines(vectorResults) + Lines(sqlResults[..j])
      invariant sources == Labels(vectorResults) + Labels(sqlResults[..j])
    {
      rows := rows + [RenderLine(sqlResults[j].row)];
      sources := sources + [SourceLabel(sqlResults[j].index)];
    }
    assert sqlResults[..|sqlResults|] == sqlResults;
    context := Join(rows, "\n");
  }

  /**
   * The context lines are the vector hits' lines in their order followed
   * by the keyword hits' lines in theirs, each in the fixed template.
   */
  lemma ContextLayout(vector: seq<Labelled>, keyword: seq<Labelled>)
    ensures var lines := Lines(vector) + Lines(keyword);
      && |lines| == |Sources(vector, keyword)| == |vector| + |keyword|
      && Context(vector, keyword) == Join(lines, "\n")
      && (forall i :: 0 <= i < |vector| ==> lines[i] == RenderLine(vector[i].row))
      && (forall j :: 0 <= j < |keyword| ==> lines[|vector| + j] == RenderLine(keyword[j].row))
  {
  }

  /** Two equal entries at distinct positions make a count of at least two. */
  lemma CountsTwice<T>(s: seq<T>, a: nat, b: nat)
    requires a < b < |s| && s[a] == s[b]
    ensures multiset(s)[s[a]] >= 2
  {
    var others := s[..a] + s[a + 1..];
    assert s == s[..a] + [s[a]] + s[a + 1..];
    assert others[b - 1] == s[b];
    assert multiset(s) == multiset(others) + multiset{s[a]};
    assert s[a] in multiset(others);
  }

  /** A row found by both searches is rendered twice: lines are not deduplicated. */
  lemma DuplicatesKept(vector: seq<Labelled>, keyword: seq<Labelled>, i: nat, j: nat)
    requires i < |vector| && j < |keyword| && vector[i].row == keyword[j].row
    ensures var lines := Lines(vector) + Lines(keyword);
      && lines[i] == lines[|vector| + j] == RenderLine(vector[i].row)
      && multiset(lines)[RenderLine(vector[i].row)] >= 2
  {
    var lines := Lines(vector) + Lines(keyword);
    assert lines[i] == RenderLine(vector[i].row);
    assert lines[|vector| + j] == RenderLine(keyword[j].row);
    CountsTwice(lines, i, |vector| + j);
  }

  /**
   * Both hits of a row found by both searches keep their label, in their
   * own places; when the two labels read the same, the label is listed
   * twice: sources are not deduplicated either.
   */
  lemma DuplicateLabelsKept(vector: seq<Labelled>, keyword: seq<Labelled>, i: nat, j: nat)
    requires i < |vector| && j < |keyword| && vector[i].row == keyword[j].row
    ensures var sources := Sources(vector, keyword);
      && sources[i] == SourceLabel(vector[i].index)
      && sources[|vector| + j] == SourceLabel(keyword[j].index)
      && (vector[i].index == keyword[j].index ==> multiset(sources)[SourceLabel(vector[i].index)] >= 2)
  {
    var sources := Sources(vector, keyword);
    assert sources[i] == SourceLabel(vector[i].index);
    assert sources[|vector| + j] == SourceLabel(keyword[j].index);
    if vector[i].index == keyword[j].index {
      CountsTwice(sources, i, |vector| + j);
    }
  }

  /** The context strips to nothing exactly when both searches found nothing. */
  lemma ContextBlankIff(vector: seq<Labelled>, keyword: seq<Labelled>)
    ensures Strip(Context(vector, keyword)) == "" <==> |vector| == 0 && |keyword| == 0
  {
    var lines := Lines(vector) + Lines(keyword);
    if |lines| > 0 {
      var context := Join(lines, "\n");
      assert StartsWith(lines[0], "City: ");
      assert StartsWith(context, lines[0]);
      assert context[0] == 'C';
      assert !AllSpace(context);
    } else {
      assert Context(vector, keyword) == "";
    }
  }

  // ---------------- Generation service ----------------

  const PromptIntro := "\nYou are a data analyst assistant.\n\nYou MUST answer ONLY using the dataset below.\nIf the answer is not present, reply exactly:\n\""
  const PromptHead := PromptIntro + NotAvailable + "\"\n\nDATA:\n"
  const PromptMiddle := "\n\nQUESTION:\n"
  const PromptTail := "\n\nGive a short factual answer.\n"

  /**
   * The user prompt: fixed instructions, the required fallback phrase, the
   * context and the question, both copied verbatim.
   */
  function Prompt(context: string, question: string): (p: string)
    ensures Occurs(context, p) && Occurs(question, p) && Occurs(NotAvailable, p)
    ensures StartsWith(p, PromptHead) && EndsWith(p, PromptTail)
  {
    var p := PromptHead + context + PromptMiddle + question + PromptTail;
    var c := |PromptHead|;
    var q := c + |context| + |PromptMiddle|;
    assert p[c..c + |context|] == context;
    assert p[q..q + |question|] == question;
    assert p[|PromptIntro|..|PromptIntro| + |NotAvailable|] == NotAvailable;
    p
  }

  datatype Message = Message(role: string, content: string)

  /** The JSON body posted to the chat endpoint. */
  datatype Payload = Payload(model: string, messages: seq<Message>, stream: bool)

  /** The request: exactly two messages, the system instruction then the user prompt, not streamed. */
  function RequestPayload(context: string, question: string): (p: Payload)
    ensures p.model == OllamaModel && !p.stream && |p.messages| == 2
    ensures p.messages[0].role == "system" && p.messages[0].content == SystemInstruction
    ensures p.messages[1].role == "user" && p.messages[1].content == Prompt(context, question)
  {
    Payload(OllamaModel, [Message("system", SystemInstruction), Message("user", Prompt(context, question))], false)
  }

  /**
   * What posting a payload yields: no response at all (connection error
   * or the 120-second timeout), or a status, the body text and, when the
   * body is JSON with a `message.content` string, that string.
   */
  datatype Reply =
    | NoResponse
    | Response(status: int, text: string, content: Option<string>)

  datatype GenerationError =
    | TransportFailed
    | OllamaError(message: string)
    | MalformedBody

  /**
   * `call_ollama`: posts `RequestPayload(context, question)` through
   * `post`. Only status 200 with a well-formed body yields text; every
   * other status raises with the body text in the message.
   */
  function CallOllama(context: string, question: string, post: Payload -> Reply): (r: Result<string, GenerationError>)
    ensures var reply := post(RequestPayload(context, question));
      && (r.Success? <==> reply.Response? && reply.status == 200 && reply.content.Some?)
      && (r.Success? ==> r.value == reply.content.value)
      && (reply.Response? && reply.status != 200 ==> r == Failure(OllamaError("Ollama error: " + reply.text)))
  {
    match post(RequestPayload(context, question))
    case NoResponse => Failure(TransportFailed)
    case Response(status, text, content) =>
      if status != 200 then Failure(OllamaError("Ollama error: " + text))
      else if content.None? then Failure(MalformedBody)
      else Success(content.value)
  }

  // ---------------- Answer policy ----------------

  /** The body returned to the caller of `/ask`. */
  datatype Answer = Answer(answer: string, sources: seq<string>, confidence: real)

  const FallbackResponse := Answer(NotAvailable, [TableSource], FallbackConfidence)

  /**
   * `ask_question` after the search: with no evidence the fixed fallback,
   * otherwise the generated answer stripped, with the table label in front
   * of the evidence labels; a generation failure is returned as such.
   */
  function Respond(question: string, vector: seq<Labelled>, keyword: seq<Labelled>, post: Payload -> Reply)
    : (r: Result<Answer, GenerationError>)
    ensures |vector| + |keyword| == 0 ==> r == Success(FallbackResponse)
    ensures |vector| + |keyword| > 0 ==>
      var call := CallOllama(Context(vector, keyword), question, post);
      && (r.Success? <==> call.Success?)
      && (r.Success? ==> r.value == Answer(Strip(call.value), [TableSource] + Sources(vector, keyword), AnswerConfidence))
      && (r.Failure? ==> r.error == call.error)
    ensures r.Success? ==> 0.0 <= r.value.confidence <= 1.0
    ensures r.Success? ==> |r.value.sources| == 1 + |vector| + |keyword| && r.value.sources[0] == TableSource
  {
    var context := Context(vector, keyword);
    ContextBlankIff(vector, keyword);
    if Strip(context) == "" then Success(FallbackResponse)
    else
      match CallOllama(context, question, post)
      case Success(text) => Success(Answer(Strip(text), [TableSource] + Sources(vector, keyword), AnswerConfidence))
      case Failure(e) => Failure(e)
  }

  /**
   * The whole `/ask` request: hybrid search, context, answer policy. The
   * fallback is returned exactly when both searches come back empty and
   * the generator is never consulted then; otherwise the answer stands or
   * falls with the generation call on the searches' context.
   */
  function AskQuestion(question: string, table: seq<Row>, indices: seq<int>, matches: seq<Row>, post: Payload -> Reply)
    : (r: Result<Answer, GenerationError>)
    requires forall j :: 0 <= j < |indices| ==> 0 <= indices[j] < |table|
    ensures |indices| + |matches| == 0 ==> r == Success(FallbackResponse)
    ensures |indices| + |matches| > 0 ==>
      var call := CallOllama(Context(VectorHits(table, indices), KeywordHits(matches)), question, post);
      && (r.Success? <==> call.Success?)
      && (r.Success? ==> r.value.answer == Strip(call.value) && r.value.confidence == AnswerConfidence)
    ensures r.Success? ==>
      |r.value.sources| == 1 + |indices| + (if |matches| <= KeywordLimit then |matches| else KeywordLimit)
  {
    Respond(question, VectorHits(table, indices), KeywordHits(matches), post)
  }

  /** The response depends on the generator only through its reply to the one request built from the context. */
  lemma ResponseDependsOnRequestOnly(question: string, vector: seq<Labelled>, keyword: seq<Labelled>,
                                     post1: Payload -> Reply, post2: Payload -> Reply)
    requires post1(RequestPayload(Context(vector, keyword), question)) == post2(RequestPayload(Context(vector, keyword), question))
    ensures Respond(question, vector, keyword, post1) == Respond(question, vector, keyword, post2)
  {
    assert CallOllama(Context(vector, keyword), question, post1) == CallOllama(Context(vector, keyword), question, post2);
  }

  /**
   * The vector search always returns `top_k` positions, so a request that
   * reaches the answer policy after a full vector search never gets the
   * fallback: a successful response carries the generated answer and
   * confidence 0.83.
   */
  lemma FallbackUnreachableAfterVectorSearch(question: string, table: seq<Row>, indices: seq<int>,
                                             matches: seq<Row>, post: Payload -> Reply)
    requires |indices| == TopK
    requires forall j :: 0 <= j < |indices| ==> 0 <= indices[j] < |table|
    ensures var r := AskQuestion(question, table, indices, matches, post);
      r.Success? ==> r.value.confidence == AnswerConfidence && r.value != FallbackResponse
  {
  }

  /**
   * The source labels of the hybrid search's hits: `row_id: p` for each
   * vector position p, then `row_id: 0`, `row_id: 1`, ... for the keyword
   * rows, whatever their place in the dataset.
   */
  lemma HitLabels(table: seq<Row>, indices: seq<int>, matches: seq<Row>)
    requires forall j :: 0 <= j < |indices| ==> 0 <= indices[j] < |table|
    ensures var sources := Sources(VectorHits(table, indices), KeywordHits(matches));
      && |sources| == |indices| + (if |matches| <= KeywordLimit then |matches| else KeywordLimit)
      && (forall j :: 0 <= j < |indices| ==> sources[j] == SourceLabel(indices[j]))
      && (forall j :: |indices| <= j < |sources| ==> sources[j] == "row_id: " + NatToString(j - |indices|))
  {
    var vector, keyword := VectorHits(table, indices), KeywordHits(matches);
    var sources := Sources(vector, keyword);
    forall j | |indices| <= j < |sources|
      ensures sources[j] == "row_id: " + NatToString(j - |indices|)
    {
      assert sources[j] == Labels(keyword)[j - |indices|];
    }
  }

  /** Whatever the branch, a successful response lists the table label, then every hit label. */
  lemma RespondSources(question: string, vector: seq<Labelled>, keyword: seq<Labelled>, post: Payload -> Reply)
    ensures var r := Respond(question, vector, keyword, post);
      r.Success? ==> r.value.sources == [TableSource] + Sources(vector, keyword)
  {
    if |vector| + |keyword| == 0 {
      assert Sources(vector, keyword) == [];
      assert [TableSource] + [] == [TableSource];
    }
  }

  /**
   * An answered request lists the table label and then the labels of
   * every hit, vector positions first.
   */
  lemma AnsweredSources(question: string, table: seq<Row>, indices: seq<int>, matches: seq<Row>, post: Payload -> Reply)
    requires forall j :: 0 <= j < |indices| ==> 0 <= indices[j] < |table|
    ensures var r := AskQuestion(question, table, indices, matches, post);
      r.Success? ==>
        && r.value.sources == [TableSource] + Sources(VectorHits(table, indices), KeywordHits(matches))
        && (forall j :: 0 <= j < |indices| ==> r.value.sources[1 + j] == SourceLabel(indices[j]))
  {
    var vector, keyword := VectorHits(table, indices), KeywordHits(matches);
    assert AskQuestion(question, table, indices, matches, post) == Respond(question, vector, keyword, post);
    RespondSources(question, vector, keyword, post);
    HitLabels(table, indices, matches);
  }
}
