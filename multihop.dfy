/** The sequential multi-hop retrieval pipeline of classic_Multi-Hop_RAG.py:
    ask the model to break the question into sub-questions (one per line), and
    for each line retrieve up to five fragments and have the model summarise them;
    then join the (sub-question, summary) pairs into one text and make a single
    synthesis call whose answer is returned.

    The language model is the function `complete` (prompt to reply text) and
    the vector store the function `search` (query and k to the page contents
    of the fragments found, best first). The external calls the pipeline makes
    are recorded, in order, as a sequence of `Call` values. */
module MultiHop {
  import opened Text

  /** Number of fragments asked of the store for each sub-question. */
  const K: nat := 5

  /** Separator between fragments in a retrieval context and between entries
      of the combined summaries. */
  const BlankLine := "\n\n"

  /** One external call, tagged with the step of the pipeline that makes it. */
  datatype Call =
    | Decompose(prompt: string)
    | Retrieve(query: string, k: nat)
    | Summarize(prompt: string)
    | Synthesize(prompt: string)

  // ---------------------------------------------------------------------------
  // Prompts

  const DecomposeHead := "\nYou are a helpful assistant. Decompose this question into 2–4 sub-questions\nthat should be answered via document retrieval:\n\nQuestion: "
  const DecomposeTail := "\nReturn each sub-question on its own line.\n"

  function DecomposePrompt(question: string): string
  {
    DecomposeHead + question + DecomposeTail
  }

  const SummaryHead := "\nYou are summarizing docs for sub-question: "
  const SummaryMiddle := "\n\nDocs:\n"
  const SummaryTail := "\n\nWrite a concise summary (8-10 bullet points).\n"

  function SummaryPrompt(subQuestion: string, context: string): string
  {
    SummaryHead + subQuestion + SummaryMiddle + context + SummaryTail
  }

  const SynthesisHead := "\nOriginal question:\n"
  const SynthesisMiddle := "\n\nYou are given summaries for each sub-question:\n"
  const SynthesisTail := "\n\nWrite a final, structured answer.\nInclude a comparison table at the end.\n"

  function SynthesisPrompt(question: string, combined: string): string
  {
    SynthesisHead + question + SynthesisMiddle + combined + SynthesisTail
  }

  /** Each prompt carries its inputs verbatim, at fixed places. */
  lemma PromptsCarryInputs(question: string, subQuestion: string, context: string, combined: string)
    ensures At(DecomposePrompt(question), question, |DecomposeHead|)
    ensures At(SummaryPrompt(subQuestion, context), subQuestion, |SummaryHead|)
    ensures At(SummaryPrompt(subQuestion, context), context, |SummaryHead| + |subQuestion| + |SummaryMiddle|)
    ensures At(SynthesisPrompt(question, combined), question, |SynthesisHead|)
    ensures At(SynthesisPrompt(question, combined), combined, |SynthesisHead| + |question| + |SynthesisMiddle|)
  {
    var p := DecomposePrompt(question);
    assert p[|DecomposeHead|..|DecomposeHead| + |question|] == question;
    p := SummaryPrompt(subQuestion, context);
    assert p[|SummaryHead|..|SummaryHead| + |subQuestion|] == subQuestion;
    var at := |SummaryHead| + |subQuestion| + |SummaryMiddle|;
    assert p[at..at + |context|] == context;
    p := SynthesisPrompt(question, combined);
    assert p[|SynthesisHead|..|SynthesisHead| + |question|] == question;
    at := |SynthesisHead| + |question| + |SynthesisMiddle|;
    assert p[at..at + |combined|] == combined;
  }

  // ---------------------------------------------------------------------------
  // Retrieval

  /** `retrieve_docs`: the page contents of the fragments found for `query` (up to K),
      in the store's order, separated by blank lines. */
  function RetrieveDocs(search: (string, nat) -> seq<string>, query: string): string
  {
    Join(BlankLine, search(query, K))
  }

  /** An empty search result gives an empty context. */
  lemma EmptyRetrieval(search: (string, nat) -> seq<string>, query: string)
    requires search(query, K) == []
    ensures RetrieveDocs(search, query) == ""
  {
  }

  /** Fragment i of the search result sits, in search order, at its offset in
      the context, and a blank line separates it from fragment i + 1. */
  lemma RetrievalContext(search: (string, nat) -> seq<string>, query: string, i: nat)
    requires i < |search(query, K)|
    ensures At(RetrieveDocs(search, query), search(query, K)[i], Offset(BlankLine, search(query, K), i))
    ensures i + 1 < |search(query, K)| ==>
      At(RetrieveDocs(search, query), BlankLine, Offset(BlankLine, search(query, K), i) + |search(query, K)[i]|)
  {
    JoinAt(BlankLine, search(query, K), i);
  }

  // ---------------------------------------------------------------------------
  // The pipeline as functions of the two services

  /** The sub-questions: the decomposition reply split into lines. */
  function SubQuestions(question: string, complete: string -> string): seq<string>
  {
    SplitLines(complete(DecomposePrompt(question)))
  }

  /** The summary the model writes for one sub-question. */
  function SummaryOf(subQuestion: string, complete: string -> string, search: (string, nat) -> seq<string>): string
  {
    complete(SummaryPrompt(subQuestion, RetrieveDocs(search, subQuestion)))
  }

  /** `partial_summaries` after the loop: one pair per sub-question, in order,
      pairing it with its own summary. */
  function PartialSummaries(subQs: seq<string>, complete: string -> string, search: (string, nat) -> seq<string>)
    : (pairs: seq<(string, string)>)
    ensures |pairs| == |subQs|
    ensures forall i :: 0 <= i < |subQs| ==> pairs[i] == (subQs[i], SummaryOf(subQs[i], complete, search))
  {
    if subQs == [] then []
    else
      var init := subQs[..|subQs| - 1];
      var sq := subQs[|subQs| - 1];
      assert forall i :: 0 <= i < |init| ==> init[i] == subQs[i];
      PartialSummaries(init, complete, search) + [(sq, SummaryOf(sq, complete, search))]
  }

  const EntryHead := "Sub-question: "
  const EntryMiddle := "\nSummary:\n"

  /** One entry of the combined text. */
  function Entry(pair: (string, string)): string
  {
    EntryHead + pair.0 + EntryMiddle + pair.1
  }

  /** Where the summary starts inside its entry. */
  function SummaryAt(pair: (string, string)): nat
  {
    |EntryHead| + |pair.0| + |EntryMiddle|
  }

  /** The entry shows its sub-question and its summary at fixed places. */
  lemma EntryLayout(pair: (string, string))
    ensures At(Entry(pair), EntryHead, 0)
    ensures At(Entry(pair), pair.0, |EntryHead|)
    ensures At(Entry(pair), EntryMiddle, |EntryHead| + |pair.0|)
    ensures At(Entry(pair), pair.1, SummaryAt(pair))
    ensures |Entry(pair)| == |EntryHead| + |pair.0| + |EntryMiddle| + |pair.1|
  {
    var e := Entry(pair);
    assert e[..|EntryHead|] == EntryHead;
    assert e[|EntryHead|..|EntryHead| + |pair.0|] == pair.0;
    var at := |EntryHead| + |pair.0|;
    assert e[at..at + |EntryMiddle|] == EntryMiddle;
    at := at + |EntryMiddle|;
    assert e[at..at + |pair.1|] == pair.1;
  }

  function Entries(pairs: seq<(string, string)>): seq<string>
  {
    seq(|pairs|, i requires 0 <= i < |pairs| => Entry(pairs[i]))
  }

  /** `combined`: the entries, in order, separated by blank lines. */
  function Combined(pairs: seq<(string, string)>): string
  {
    Join(BlankLine, Entries(pairs))
  }

  /** Entry i of `combined` starts at its offset, and a blank line separates
      it from entry i + 1. */
  lemma CombinedEntries(pairs: seq<(string, string)>, i: nat)
    requires i < |pairs|
    ensures At(Combined(pairs), Entry(pairs[i]), Offset(BlankLine, Entries(pairs), i))
    ensures i + 1 < |pairs| ==>
      At(Combined(pairs), BlankLine, Offset(BlankLine, Entries(pairs), i) + |Entry(pairs[i])|)
  {
    var es := Entries(pairs);
    assert es[i] == Entry(pairs[i]);
    JoinAt(BlankLine, es, i);
  }

  /** Entry i of `combined` shows sub-question i and summary i at fixed places
      after the entry's start. */
  lemma CombinedFields(pairs: seq<(string, string)>, i: nat)
    requires i < |pairs|
    ensures At(Combined(pairs), pairs[i].0, Offset(BlankLine, Entries(pairs), i) + |EntryHead|)
    ensures At(Combined(pairs), pairs[i].1, Offset(BlankLine, Entries(pairs), i) + SummaryAt(pairs[i]))
  {
    var es := Entries(pairs);
    assert Combined(pairs) == Join(BlankLine, es);
    assert es[i] == Entry(pairs[i]);
    EntryLayout(pairs[i]);
    JoinInner(BlankLine, es, i, pairs[i].0, |EntryHead|);
    JoinInner(BlankLine, es, i, pairs[i].1, SummaryAt(pairs[i]));
  }

  lemma CombinedEmpty()
    ensures Combined([]) == ""
  {
  }

  /** The external calls of one hop: one retrieval, then one summary. */
  function HopCalls(subQs: seq<string>, search: (string, nat) -> seq<string>): (calls: seq<Call>)
    ensures |calls| == 2 * |subQs|
    ensures forall i :: 0 <= i < |subQs| ==>
      calls[2 * i] == Retrieve(subQs[i], K) &&
      calls[2 * i + 1] == Summarize(SummaryPrompt(subQs[i], RetrieveDocs(search, subQs[i])))
  {
    if subQs == [] then []
    else
      var init := subQs[..|subQs| - 1];
      var sq := subQs[|subQs| - 1];
      assert forall i :: 0 <= i < |init| ==> init[i] == subQs[i];
      HopCalls(init, search) + [Retrieve(sq, K), Summarize(SummaryPrompt(sq, RetrieveDocs(search, sq)))]
  }

  /** Every external call of one run, in order. */
  function Trace(question: string, complete: string -> string, search: (string, nat) -> seq<string>): seq<Call>
  {
    var subQs := SubQuestions(question, complete);
    [Decompose(DecomposePrompt(question))]
      + HopCalls(subQs, search)
      + [Synthesize(SynthesisPrompt(question, Combined(PartialSummaries(subQs, complete, search))))]
  }

  /** The final answer of one run. */
  function Answer(question: string, complete: string -> string, search: (string, nat) -> seq<string>): string
  {
    var subQs := SubQuestions(question, complete);
    complete(SynthesisPrompt(question, Combined(PartialSummaries(subQs, complete, search))))
  }

  /** A hop makes only retrievals and summaries. */
  lemma {:induction false} HopCallsAreHops(subQs: seq<string>, search: (string, nat) -> seq<string>)
    ensures forall j :: 0 <= j < |HopCalls(subQs, search)| ==>
      HopCalls(subQs, search)[j].Retrieve? || HopCalls(subQs, search)[j].Summarize?
  {
    if subQs != [] {
      HopCallsAreHops(subQs[..|subQs| - 1], search);
    }
  }

  /** The order of a run: one decomposition call first, then for line i of the
      decomposition one retrieval for that line and one summary of its
      context, in line order, and a synthesis call last. */
  lemma TraceShape(question: string, complete: string -> string, search: (string, nat) -> seq<string>)
    ensures var subQs, t := SubQuestions(question, complete), Trace(question, complete, search);
      && |t| == 2 * |subQs| + 2
      && t[0] == Decompose(DecomposePrompt(question))
      && (forall i :: 0 <= i < |subQs| ==>
            t[2 * i + 1] == Retrieve(subQs[i], K) &&
            t[2 * i + 2] == Summarize(SummaryPrompt(subQs[i], RetrieveDocs(search, subQs[i]))))
      && t[|t| - 1] == Synthesize(SynthesisPrompt(question, Combined(PartialSummaries(subQs, complete, search))))
      && Answer(question, complete, search) == complete(t[|t| - 1].prompt)
  {
    var subQs, t := SubQuestions(question, complete), Trace(question, complete, search);
    var hops := HopCalls(subQs, search);
    forall i | 0 <= i < |subQs|
      ensures t[2 * i + 1] == Retrieve(subQs[i], K)
      ensures t[2 * i + 2] == Summarize(SummaryPrompt(subQs[i], RetrieveDocs(search, subQs[i])))
    {
      assert t[2 * i + 1] == hops[2 * i];
      assert t[2 * i + 2] == hops[2 * i + 1];
    }
  }

  /** A run decomposes exactly once, as its first call, and synthesises
      exactly once, as its last. */
  lemma TraceEnds(question: string, complete: string -> string, search: (string, nat) -> seq<string>)
    ensures var t := Trace(question, complete, search);
      && (forall j :: 0 <= j < |t| ==> (t[j].Decompose? <==> j == 0))
      && (forall j :: 0 <= j < |t| ==> (t[j].Synthesize? <==> j == |t| - 1))
  {
    var t := Trace(question, complete, search);
    var hops := HopCalls(SubQuestions(question, complete), search);
    HopCallsAreHops(SubQuestions(question, complete), search);
    forall j | 1 <= j < |t| - 1 ensures t[j].Retrieve? || t[j].Summarize? {
      assert t[j] == hops[j - 1];
    }
  }

  /** A reply with no lines still leads to exactly one synthesis call, over an
      empty combined text, and nothing in between. */
  lemma NoSubQuestions(question: string, complete: string -> string, search: (string, nat) -> seq<string>)
    requires SubQuestions(question, complete) == []
    ensures Trace(question, complete, search) ==
      [Decompose(DecomposePrompt(question)), Synthesize(SynthesisPrompt(question, ""))]
    ensures Answer(question, complete, search) == complete(SynthesisPrompt(question, ""))
  {
  }

  /** Sub-question i is line i of the reply, blank lines included: writing the
      sub-questions back out line by line restores the reply. */
  lemma SubQuestionsAreLines(question: string, complete: string -> string)
    ensures var reply := complete(DecomposePrompt(question));
      Terminated(SubQuestions(question, complete)) ==
        if reply == [] || reply[|reply| - 1] == '\n' then reply else reply + "\n"
    ensures forall i :: 0 <= i < |SubQuestions(question, complete)| ==> '\n' !in SubQuestions(question, complete)[i]
  {
    TerminatedSplit(complete(DecomposePrompt(question)));
    LinesHaveNoBreak(complete(DecomposePrompt(question)));
  }

  // ---------------------------------------------------------------------------
  // The pipeline as the source runs it

  /** `multi_hop_rag`: returns the final answer and the external calls made. */
  method MultiHopRag(question: string, complete: string -> string, search: (string, nat) -> seq<string>)
    returns (finalAnswer: string, calls: seq<Call>)
    ensures finalAnswer == Answer(question, complete, search)
    ensures calls == Trace(question, complete, search)
  {
    var decomposePrompt := DecomposePrompt(question);
    calls := [Decompose(decomposePrompt)];
    var subQs := SplitLines(complete(decomposePrompt));
    var partialSummaries: seq<(string, string)> := [];
    for i := 0 to |subQs|
      invariant partialSummaries == PartialSummaries(subQs[..i], complete, search)
      invariant calls == [Decompose(decomposePrompt)] + HopCalls(subQs[..i], search)
    {
      var sq := subQs[i];
      var context := RetrieveDocs(search, sq);
      var summaryPrompt := SummaryPrompt(sq, context);
      var summary := complete(summaryPrompt);
      assert subQs[..i + 1][..i] == subQs[..i];
      calls := calls + [Retrieve(sq, K), Summarize(summaryPrompt)];
      partialSummaries := partialSummaries + [(sq, summary)];
    }
    assert subQs[..|subQs|] == subQs;
    var combined := Combined(partialSummaries);
    var synthesisPrompt := SynthesisPrompt(question, combined);
    calls := calls + [Synthesize(synthesisPrompt)];
    finalAnswer := complete(synthesisPrompt);
  }
}
