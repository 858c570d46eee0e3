/**
 * The decisions of the answer pipeline around the language model: no
 * matched knowledge means no answer and no model call; otherwise the
 * digest and the question go into a fixed prompt, and the trimmed
 * completion is the answer unless it is the sentinel "none".
 * The model is a function parameter that may fail (`None`).
 */
module Response {
  import opened Wrappers
  import opened Strings
  import opened Knowledge
  import opened Summary

  /** Generation settings passed with every prompt. */
  const MaxTokens: nat := 200
  const Temperature: real := 0.3
  const StopSequences: seq<string> := ["Question:", "\n\n"]

  /** Completion text meaning "nothing grounded to say", compared after trimming and lower-casing. */
  const Sentinel: string := "none"

  /** One completion request: the prompt and the generation settings. */
  datatype Request = Request(prompt: string, maxTokens: nat, temperature: real, stop: seq<string>, echo: bool)

  const PromptHead: string := "You are a Dying Light modder. Based on this knowledge: "
  const PromptMiddle: string := "\nQuestion: "
  const PromptTail: string := "\nGive a SIMPLE YET CONCISE answer (3-4 sentences max) and give a simple explanation/solution:"

  /** The prompt embeds the digest and then the question, each verbatim. */
  function Prompt(digest: string, question: string): (p: string)
    ensures OccursAt(p, digest, |PromptHead|)
    ensures OccursAt(p, question, |PromptHead| + |digest| + |PromptMiddle|)
  {
    var p := PromptHead + digest + PromptMiddle + question + PromptTail;
    assert p[|PromptHead|..|PromptHead| + |digest|] == digest;
    assert p[|PromptHead| + |digest| + |PromptMiddle|..|PromptHead| + |digest| + |PromptMiddle| + |question|] == question;
    p
  }

  /** The request sent to the model: the prompt with the fixed settings and echo off. */
  function ModelRequest(prompt: string): (r: Request)
    ensures r.prompt == prompt && r.maxTokens == 200 && r.temperature == 0.3 && !r.echo
    ensures r.stop == ["Question:", "\n\n"]
  {
    Request(prompt, MaxTokens, Temperature, StopSequences, false)
  }

  /** The answer read from a completion: trimmed, and absent when it is the sentinel in any case. */
  function Answer(completion: string): (a: Option<string>)
    ensures a.None? <==> Lower(Strip(completion)) == Sentinel
    ensures a.Some? ==> Strip(a.value) == a.value && Lower(a.value) != Sentinel
    ensures a.Some? ==> forall i :: 0 <= i < |completion| && !IsSpace(completion[i]) ==> completion[i] in a.value
  {
    var trimmed := Strip(completion);
    StripIdempotent(completion);
    if Lower(trimmed) == Sentinel then None else Some(trimmed)
  }

  /** The model call made for a question, or `None` when no knowledge matched and the model is not called. */
  function ModelCall(kb: KnowledgeBase, question: string): Option<Request> {
    var relevant := Relevant(kb, QueryWords(question));
    if relevant == [] then None
    else Some(ModelRequest(Prompt(Join(SummaryLines(relevant), "\n"), question)))
  }

  /** The reply to a question; `llm` returns `None` when the model call fails. */
  function Respond(kb: KnowledgeBase, question: string, llm: Request -> Option<string>): Option<string> {
    match ModelCall(kb, question)
    case None => None
    case Some(request) =>
      match llm(request)
      case None => None
      case Some(completion) => Answer(completion)
  }

  /** Matches, summarizes, prompts the model and reads its answer. */
  method GenerateResponse(kb: KnowledgeBase, question: string, llm: Request -> Option<string>)
    returns (answer: Option<string>)
    requires WellFormed(kb)
    ensures answer == Respond(kb, question, llm)
  {
    var relevant := FindRelevantKnowledge(kb, question);
    if relevant == [] {
      return None;
    }
    var digest := Summarize(relevant);
    var prompt := Prompt(digest, question);
    var response := llm(ModelRequest(prompt));
    if response.None? {
      return None;
    }
    answer := Answer(response.value);
  }

  /** The model is called exactly when some knowledge matched. */
  lemma ModelCalledIffMatched(kb: KnowledgeBase, question: string)
    ensures ModelCall(kb, question).None? <==> Relevant(kb, QueryWords(question)) == []
  {
  }

  /** Without matched knowledge there is no answer, whatever the model would have said. */
  lemma NoMatchNoAnswer(kb: KnowledgeBase, question: string, llm: Request -> Option<string>)
    requires Relevant(kb, QueryWords(question)) == []
    ensures ModelCall(kb, question) == None
    ensures Respond(kb, question, llm) == None
  {
  }

  /** A base that failed to load is empty, and then no question is ever answered. */
  lemma EmptyBaseNeverAnswers(question: string, llm: Request -> Option<string>)
    ensures Respond([], question, llm) == None
  {
    assert Relevant([], QueryWords(question)) == [];
  }

  /**
   * An answer is always grounded: some knowledge matched, the prompt
   * carried its digest and the question, and the answer is the model's
   * completion trimmed and different from the sentinel.
   */
  lemma AnswerIsGrounded(kb: KnowledgeBase, question: string, llm: Request -> Option<string>)
    requires Respond(kb, question, llm).Some?
    ensures var relevant := Relevant(kb, QueryWords(question));
      relevant != [] &&
      var request := ModelCall(kb, question).value;
      OccursAt(request.prompt, Join(SummaryLines(relevant), "\n"), |PromptHead|) &&
      llm(request).Some? &&
      Respond(kb, question, llm).value == Strip(llm(request).value) &&
      Lower(Respond(kb, question, llm).value) != Sentinel
  {
  }

  /** A failed model call gives no answer. */
  lemma ModelFailureNoAnswer(kb: KnowledgeBase, question: string, llm: Request -> Option<string>)
    requires ModelCall(kb, question).Some? && llm(ModelCall(kb, question).value).None?
    ensures Respond(kb, question, llm) == None
  {
  }

  /** The sentinel is recognised in any case and with surrounding whitespace. */
  lemma SentinelExample(completion: string)
    requires completion == " NONE\n"
    ensures Answer(completion) == None
  {
    var trimmed := completion[1..5];
    assert completion == [' '] + trimmed + ['\n'];
    StripPadded([' '], trimmed, ['\n']);
    assert Lower(trimmed) == "none";
  }

  /** A completion that merely starts with the sentinel is an answer. */
  lemma NearSentinelExample(completion: string)
    requires completion == "None of the mods conflict."
    ensures Answer(completion) == Some(completion)
  {
    StripUnchanged(completion);
    assert |Lower(completion)| != |Sentinel|;
  }
}
