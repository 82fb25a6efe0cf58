/**
 Question answering with citations (`deepwiki/qa.py`): the provider check of
 `QuestionAnswering`, `Citation` and `Answer` with their dict and Markdown
 forms, and the way `answer` turns search results into citations and a prompt.
 The language model is an abstract function from provider and prompt to text.
 */
module Qa {
  import opened Wrappers
  import opened Text
  import opened Settings
  import opened Retriever

  /** A metadata value as an f-string renders it. */
  function Render(v: Value): string {
    match v
    case Str(s) => s
    case Int(i) => IntToString(i)
  }

  // ================================================================ Citation and Answer

  datatype Citation = Citation(repoName: Value, filePath: Value, url: Value, textSnippet: string)

  datatype Answer = Answer(question: string, answer: string, citations: seq<Citation>)

  /** A JSON-like value, for `to_dict`. */
  datatype Json = JStr(s: string) | JVal(v: Value) | JList(items: seq<Json>) | JObj(fields: map<string, Json>)

  /** `Citation.to_dict()`. */
  function CitationToDict(c: Citation): (d: Json)
    ensures d.JObj? && d.fields.Keys == {"repo_name", "file_path", "url", "text_snippet"}
  {
    JObj(map["repo_name" := JVal(c.repoName), "file_path" := JVal(c.filePath), "url" := JVal(c.url),
             "text_snippet" := JStr(c.textSnippet)])
  }

  /** Reads a citation back from its dict, when it has that shape. */
  function CitationFromDict(d: Json): Option<Citation> {
    if && d.JObj?
       && "repo_name" in d.fields && d.fields["repo_name"].JVal?
       && "file_path" in d.fields && d.fields["file_path"].JVal?
       && "url" in d.fields && d.fields["url"].JVal?
       && "text_snippet" in d.fields && d.fields["text_snippet"].JStr?
    then Some(Citation(d.fields["repo_name"].v, d.fields["file_path"].v, d.fields["url"].v, d.fields["text_snippet"].s))
    else None
  }

  lemma CitationDictRoundTrip(c: Citation)
    ensures CitationFromDict(CitationToDict(c)) == Some(c)
  {
  }

  /** `Answer.to_dict()`: the citations are converted one by one, in order. */
  function AnswerToDict(a: Answer): (d: Json)
    ensures d.JObj? && d.fields.Keys == {"question", "answer", "citations"}
    ensures d.fields["citations"].JList? && |d.fields["citations"].items| == |a.citations|
    ensures forall i :: 0 <= i < |a.citations| ==> d.fields["citations"].items[i] == CitationToDict(a.citations[i])
  {
    JObj(map["question" := JStr(a.question), "answer" := JStr(a.answer), "citations" := JList(CitationDicts(a.citations))])
  }

  function CitationDicts(cs: seq<Citation>): (r: seq<Json>)
    ensures |r| == |cs|
    ensures forall i :: 0 <= i < |cs| ==> r[i] == CitationToDict(cs[i])
  {
    seq(|cs|, i requires 0 <= i < |cs| => CitationToDict(cs[i]))
  }

  /** Reads the citations of an answer dict back. */
  function CitationsFromDicts(items: seq<Json>): Option<seq<Citation>>
    decreases |items|
  {
    if |items| == 0 then Some([])
    else
      match (CitationFromDict(items[0]), CitationsFromDicts(items[1..]))
      case (Some(c), Some(rest)) => Some([c] + rest)
      case _ => None
  }

  function AnswerFromDict(d: Json): Option<Answer> {
    if && d.JObj?
       && "question" in d.fields && d.fields["question"].JStr?
       && "answer" in d.fields && d.fields["answer"].JStr?
       && "citations" in d.fields && d.fields["citations"].JList?
    then
      match CitationsFromDicts(d.fields["citations"].items)
      case Some(cs) => Some(Answer(d.fields["question"].s, d.fields["answer"].s, cs))
      case None => None
    else None
  }

  lemma {:induction false} CitationsRoundTrip(cs: seq<Citation>)
    ensures CitationsFromDicts(CitationDicts(cs)) == Some(cs)
    decreases |cs|
  {
    if |cs| > 0 {
      var items := CitationDicts(cs);
      CitationsRoundTrip(cs[1..]);
      CitationDictsTail(cs);
      CitationDictRoundTrip(cs[0]);
      CitationsFromDictsCons(items, cs[0], cs[1..]);
      assert [cs[0]] + cs[1..] == cs;
    }
  }

  lemma CitationDictsTail(cs: seq<Citation>)
    requires |cs| > 0
    ensures CitationDicts(cs)[1..] == CitationDicts(cs[1..])
    ensures CitationDicts(cs)[0] == CitationToDict(cs[0])
  {
    var a := CitationDicts(cs)[1..];
    var b := CitationDicts(cs[1..]);
    forall i | 0 <= i < |a| ensures a[i] == b[i] {
      assert cs[1..][i] == cs[i + 1];
    }
  }

  /** Reading a list of dicts back reads its first dict, then the rest. */
  lemma CitationsFromDictsCons(items: seq<Json>, c: Citation, rest: seq<Citation>)
    requires |items| > 0 && CitationFromDict(items[0]) == Some(c) && CitationsFromDicts(items[1..]) == Some(rest)
    ensures CitationsFromDicts(items) == Some([c] + rest)
  {
  }

  /** The dict form loses nothing: the answer can be read back from it. */
  lemma AnswerDictRoundTrip(a: Answer)
    ensures AnswerFromDict(AnswerToDict(a)) == Some(a)
  {
    CitationsRoundTrip(a.citations);
  }

  // ================================================================ format_markdown

  /** The line `i. [repo/file](url)` listing citation `c` as number `i`. */
  function SourceLine(i: nat, c: Citation): string {
    NatToString(i) + ". [" + Render(c.repoName) + "/" + Render(c.filePath) + "](" + Render(c.url) + ")\n"
  }

  /** The source lines for `cs`, numbered from `first`. */
  function SourceLines(cs: seq<Citation>, first: nat): (r: seq<string>)
    ensures |r| == |cs|
    ensures forall i :: 0 <= i < |cs| ==> r[i] == SourceLine(first + i, cs[i])
  {
    seq(|cs|, i requires 0 <= i < |cs| => SourceLine(first + i, cs[i]))
  }

  function MarkdownHead(a: Answer): string {
    "**Question:** " + a.question + "\n\n" + "**Answer:** " + a.answer + "\n\n"
  }

  /** `Answer.format_markdown()`. */
  function FormatMarkdown(a: Answer): (md: string)
    ensures StartsWith(md, MarkdownHead(a))
    ensures md == MarkdownHead(a) <==> |a.citations| == 0
    ensures |a.citations| > 0 ==> md == MarkdownHead(a) + "**Sources:**\n" + Concat(SourceLines(a.citations, 1))
  {
    var head := MarkdownHead(a);
    if |a.citations| > 0 then
      var md := head + "**Sources:**\n" + Concat(SourceLines(a.citations, 1));
      assert md[..|head|] == head;
      md
    else
      assert head[..|head|] == head;
      head
  }

  /** Every citation appears as its own numbered line, counting from 1. */
  lemma MarkdownListsEveryCitation(a: Answer, i: nat)
    requires i < |a.citations|
    ensures Contains(FormatMarkdown(a), SourceLine(i + 1, a.citations[i]))
  {
    var lines := SourceLines(a.citations, 1);
    ConcatContainsPart(lines, i);
    ContainsInfix(Concat(lines), MarkdownHead(a) + "**Sources:**\n", [], lines[i]);
    assert MarkdownHead(a) + "**Sources:**\n" + Concat(lines) + [] == FormatMarkdown(a);
  }

  /** Each part of a concatenation occurs in it. */
  lemma {:induction false} ConcatContainsPart(parts: seq<string>, i: nat)
    requires i < |parts|
    ensures Contains(Concat(parts), parts[i])
    decreases |parts|
  {
    if i == 0 {
      assert OccursAt(Concat(parts), parts[0], 0);
    } else {
      ConcatContainsPart(parts[1..], i - 1);
      ContainsInfix(Concat(parts[1..]), parts[0], [], parts[i]);
      assert parts[0] + Concat(parts[1..]) + [] == Concat(parts);
    }
  }

  lemma MarkdownExample()
    ensures FormatMarkdown(Answer("Q", "A", [])) == "**Question:** Q\n\n**Answer:** A\n\n"
  {
    assert MarkdownHead(Answer("Q", "A", [])) == "**Question:** Q\n\n**Answer:** A\n\n";
  }

  lemma SourceLineExample()
    ensures SourceLine(1, Citation(Str("o/r"), Str("README.md"), Str("u"), "")) == "1. [o/r/README.md](u)\n"
  {
    assert NatToString(1) == "1";
  }

  // ================================================================ QuestionAnswering

  datatype Provider = OpenAI | Anthropic

  /** The provider check of `QuestionAnswering.__init__`, with the messages of the `ValueError`s it raises. */
  function CheckProvider(cfg: Config): (r: Result<Provider, string>)
    ensures r == Success(OpenAI) <==> cfg.llmProvider == "openai" && IsSet(cfg.openaiKey)
    ensures r == Success(Anthropic) <==> cfg.llmProvider == "anthropic" && IsSet(cfg.anthropicKey)
  {
    if cfg.llmProvider == "openai" then
      if !IsSet(cfg.openaiKey) then Failure("OPENAI_API_KEY is required for OpenAI provider") else Success(OpenAI)
    else if cfg.llmProvider == "anthropic" then
      if !IsSet(cfg.anthropicKey) then Failure("ANTHROPIC_API_KEY is required for Anthropic provider") else Success(Anthropic)
    else
      Failure("Unsupported LLM provider: " + cfg.llmProvider)
  }

  /** Any other provider name is refused with a message that names it. */
  lemma UnsupportedProvider(cfg: Config)
    requires cfg.llmProvider != "openai" && cfg.llmProvider != "anthropic"
    ensures CheckProvider(cfg).Failure?
    ensures Contains(CheckProvider(cfg).error, cfg.llmProvider)
  {
    var msg := "Unsupported LLM provider: ";
    assert (msg + cfg.llmProvider)[|msg|..] == cfg.llmProvider;
    assert OccursAt(msg + cfg.llmProvider, cfg.llmProvider, |msg|);
  }

  /** The default configuration has no key, so construction fails. */
  lemma DefaultNeedsKey()
    ensures CheckProvider(Default) == Failure("OPENAI_API_KEY is required for OpenAI provider")
  {
  }

  const Fallback: string := "I couldn't find any relevant information in the indexed documentation to answer this question."

  /** `result.text[:200] + "..."` when the text is longer than 200 characters, else the text. */
  function Snippet(text: string): (r: string)
    ensures |r| <= 203
    ensures |text| <= 200 ==> r == text
    ensures |text| > 200 ==> |r| == 203 && r[..200] == text[..200] && EndsWith(r, "...")
  {
    if |text| > 200 then
      var r := text[..200] + "...";
      assert r[..200] == text[..200] && r[200..] == "...";
      r
    else text
  }

  function CitationOf(r: SearchResult): Citation {
    Citation(r.repoName, r.filePath, r.url, Snippet(r.text))
  }

  function Citations(results: seq<SearchResult>): (r: seq<Citation>)
    ensures |r| == |results|
    ensures forall i :: 0 <= i < |results| ==> r[i] == CitationOf(results[i])
  {
    seq(|results|, i requires 0 <= i < |results| => CitationOf(results[i]))
  }

  /** The context block `[Source i: repo/file]\ntext\n` of result `r` numbered `i`. */
  function Block(i: nat, r: SearchResult): string {
    "[Source " + NatToString(i) + ": " + Render(r.repoName) + "/" + Render(r.filePath) + "]\n" + r.text + "\n"
  }

  function Blocks(results: seq<SearchResult>): (r: seq<string>)
    ensures |r| == |results|
    ensures forall i :: 0 <= i < |results| ==> r[i] == Block(i + 1, results[i])
  {
    seq(|results|, i requires 0 <= i < |results| => Block(i + 1, results[i]))
  }

  /** The context of `_generate_answer`: the numbered blocks joined by blank lines. */
  function Context(results: seq<SearchResult>): string {
    Join(Blocks(results), "\n\n")
  }

  /** `_build_prompt(question, context)`. */
  function BuildPrompt(question: string, context: string): string {
    PromptIntro + context + "\n\nQuestion: " + question + "\n\n" + PromptOutro
  }

  const PromptIntro: string :=
    "You are a helpful assistant that answers questions based on documentation.\n\n"
    + "Use the following documentation excerpts to answer the question. If the answer cannot be found in the provided context, say so.\n\n"
    + "Documentation:\n"

  const PromptOutro: string :=
    "Provide a clear, accurate answer based on the documentation above. Reference specific sources when relevant."

  /** What `answer` returned or raised, and the prompt it sent to the model, if any. */
  datatype AnswerRun = AnswerRun(prompt: Option<string>, answer: Result<Answer, SearchError>)

  /**
   `answer(question, top_k)` of a `QuestionAnswering` built for `provider`:
   the store answers queries for this question, `generate` is the model.
   */
  function AnswerQuestion(provider: Provider, cfg: Config, question: string, topK: Option<int>,
                          store: int -> QueryReply, generate: (Provider, string) -> string): AnswerRun
  {
    var run := Search(Some(ResolveTopK(topK, cfg)), cfg, store);
    match run.results
    case Failure(e) => AnswerRun(None, Failure(e))
    case Success(results) =>
      if |results| == 0 then
        AnswerRun(None, Success(Answer(question, Fallback, [])))
      else
        var prompt := BuildPrompt(question, Context(results));
        AnswerRun(Some(prompt), Success(Answer(question, generate(provider, prompt), Citations(results))))
  }

  // ================================================================ properties

  /** `answer` resolves `top_k` and `search` resolves it again; the second resolution changes nothing. */
  lemma TopKResolvedOnce(topK: Option<int>, cfg: Config)
    ensures ResolveTopK(Some(ResolveTopK(topK, cfg)), cfg) == ResolveTopK(topK, cfg)
  {
  }

  /** No search results: the fixed answer, no citations, and no call to the model. */
  lemma FallbackWhenNothingFound(provider: Provider, cfg: Config, question: string, topK: Option<int>,
                                 store: int -> QueryReply, generate: (Provider, string) -> string)
    requires Search(Some(ResolveTopK(topK, cfg)), cfg, store).results == Success([])
    ensures AnswerQuestion(provider, cfg, question, topK, store, generate) == AnswerRun(None, Success(Answer(question, Fallback, [])))
  {
  }

  /**
   With results, there is one citation per result in the same order, naming its
   repository, file and URL and carrying its snippet, and the answer is the
   model's reply to the prompt that was built.
   */
  lemma CitationsFollowResults(provider: Provider, cfg: Config, question: string, topK: Option<int>,
                               store: int -> QueryReply, generate: (Provider, string) -> string,
                               results: seq<SearchResult>)
    requires Search(Some(ResolveTopK(topK, cfg)), cfg, store).results == Success(results)
    requires |results| > 0
    ensures var run := AnswerQuestion(provider, cfg, question, topK, store, generate);
      && run.prompt.Some? && run.answer.Success?
      && run.answer.value.question == question
      && run.answer.value.answer == generate(provider, run.prompt.value)
      && |run.answer.value.citations| == |results|
      && (forall i :: 0 <= i < |results| ==>
            && run.answer.value.citations[i].repoName == results[i].repoName
            && run.answer.value.citations[i].filePath == results[i].filePath
            && run.answer.value.citations[i].url == results[i].url
            && run.answer.value.citations[i].textSnippet == Snippet(results[i].text))
  {
  }

  /** With results, the prompt given to the model holds every result's text and the question. */
  lemma PromptCarriesResults(provider: Provider, cfg: Config, question: string, topK: Option<int>,
                             store: int -> QueryReply, generate: (Provider, string) -> string,
                             results: seq<SearchResult>)
    requires Search(Some(ResolveTopK(topK, cfg)), cfg, store).results == Success(results)
    requires |results| > 0
    ensures var run := AnswerQuestion(provider, cfg, question, topK, store, generate);
      && run.prompt.Some?
      && (forall i :: 0 <= i < |results| ==> Contains(run.prompt.value, results[i].text))
      && Contains(run.prompt.value, question)
  {
    var prompt := BuildPrompt(question, Context(results));
    assert AnswerQuestion(provider, cfg, question, topK, store, generate).prompt == Some(prompt);
    forall i | 0 <= i < |results| ensures Contains(prompt, results[i].text) {
      PromptHoldsResult(question, results, i);
    }
    PromptHoldsQuestion(question, Context(results));
  }

  /** Result `i` appears in the context, inside block number `i + 1`. */
  lemma ContextHoldsResult(results: seq<SearchResult>, i: nat)
    requires i < |results|
    ensures Contains(Context(results), Block(i + 1, results[i]))
    ensures Contains(Context(results), results[i].text)
  {
    var blocks := Blocks(results);
    JoinContainsPart(blocks, "\n\n", i);
    var r := results[i];
    var pre := "[Source " + NatToString(i + 1) + ": " + Render(r.repoName) + "/" + Render(r.filePath) + "]\n";
    assert Block(i + 1, r) == pre + r.text + "\n";
    assert OccursAt(r.text, r.text, 0);
    ContainsInfix(r.text, pre, "\n", r.text);
    ContainsTransitive(Context(results), Block(i + 1, r), r.text);
  }

  /** Whatever the context contains, the prompt contains. */
  lemma PromptHoldsContext(question: string, context: string, sub: string)
    requires Contains(context, sub)
    ensures Contains(BuildPrompt(question, context), sub)
  {
    var tail := "\n\nQuestion: " + question + "\n\n" + PromptOutro;
    ContainsInfix(context, PromptIntro, tail, sub);
    PromptPieces(PromptIntro, context, "\n\nQuestion: ", question, "\n\n", PromptOutro);
  }

  /** The two groupings of the prompt's six pieces used above and below. */
  lemma PromptPieces(a: string, b: string, c: string, d: string, e: string, f: string)
    ensures a + b + c + d + e + f == a + b + (c + d + e + f)
    ensures a + b + c + d + e + f == (a + b + c) + d + (e + f)
  {
  }

  lemma PromptHoldsResult(question: string, results: seq<SearchResult>, i: nat)
    requires i < |results|
    ensures Contains(BuildPrompt(question, Context(results)), results[i].text)
  {
    ContextHoldsResult(results, i);
    PromptHoldsContext(question, Context(results), results[i].text);
  }

  lemma PromptHoldsQuestion(question: string, context: string)
    ensures Contains(BuildPrompt(question, context), question)
  {
    var head := PromptIntro + context + "\n\nQuestion: ";
    var tail := "\n\n" + PromptOutro;
    assert OccursAt(question, question, 0);
    ContainsInfix(question, head, tail, question);
    PromptPieces(PromptIntro, context, "\n\nQuestion: ", question, "\n\n", PromptOutro);
  }

  /** A string contains whatever its infixes contain. */
  lemma ContainsTransitive(s: string, mid: string, sub: string)
    requires Contains(s, mid) && Contains(mid, sub)
    ensures Contains(s, sub)
  {
    var k :| 0 <= k <= |s| && OccursAt(s, mid, k);
    var j :| 0 <= j <= |mid| && OccursAt(mid, sub, j);
    forall t | 0 <= t < |sub| ensures s[k + j + t] == sub[t] {
      assert sub[t] == mid[j..j + |sub|][t] == mid[j + t];
      assert mid[j + t] == s[k..k + |mid|][j + t];
    }
    assert s[k + j..k + j + |sub|] == sub;
    assert OccursAt(s, sub, k + j);
  }

  lemma SnippetExample()
    ensures Snippet("abc") == "abc"
    ensures |Snippet(seq(250, i => 'x'))| == 203
  {
  }
}
