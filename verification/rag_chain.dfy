/**
 The per-query answer policy and its prompt template. The vector-store
 retriever and the chat model are collaborators passed in as functions:
 `retrieve` maps the raw query to the page contents of the retrieved
 documents, in retrieval order, and `complete` maps a prompt to the model's
 reply text.
 */
module RagChain {
  import opened Results
  import opened Text

  // ---------------------------------------------------------------------
  // Fixed texts

  /** The five greeting tokens; membership is by equality. */
  const Greetings: seq<string> := ["hi", "hello", "hey", "merhaba", "greetings"]

  /** The canned reply to a greeting, opening with U+1F44B WAVING HAND SIGN. */
  const GreetingReply := "\U{1F44B} Hello! How can I assist you today?"

  /** The "no information" sentence; both apostrophes are U+2019. */
  const NoInformation := "I\U{2019}m sorry, but I don\U{2019}t have information on this topic."

  /** Stripped contexts shorter than this are treated as no context. */
  const MinContextLength := 20

  /** The phrase the degenerate-reply test searches for, with its upper-case
      `I`, exactly as the test is written. */
  const DontKnowAsWritten := "I don't know"

  /** The phrase the degenerate-reply test evidently means to find. */
  const DontKnowIntended := "i don't know"

  // The template around the two slots, with U+1F539 SMALL BLUE DIAMOND,
  // keycap digits (digit, U+FE0F, U+20E3) and U+2757 HEAVY EXCLAMATION MARK,
  // and the four-space indentation and trailing double spaces of its lines.
  const PromptHead :=
    "\n    Below is the available information for answering student inquiries about Vistula University.\n"
    + "\n"
    + "    \U{1F539} Follow this order when answering:\n"
    + "    1\U{FE0F}\U{20E3} **Use internal university knowledge first.**  \n"
    + "    2\U{FE0F}\U{20E3} **If internal data lacks relevant details.**  \n"
    + "    3\U{FE0F}\U{20E3} **If no useful information is found, respond with: \"" + NoInformation + "\"**  \n"
    + "\n"
    + "    \U{1F539} Important Rules:\n"
    + "    - **Do not start with introductions.** Provide the answer directly.  \n"
    + "    - **If no information is available, do not add lengthy explanations.**  \n"
    + "    - **Never make up or guess information.**  \n"
    + "\n"
    + "    \U{1F539} Available Information:\n"
    + "    "
  const PromptMiddle := "\n    \n    \U{1F539} Question:\n    "
  const PromptTail :=
    "\n\n    ---\n"
    + "    \U{2757} **If no relevant information is found, simply say:**\n"
    + "    - \"" + NoInformation + "\"\n"
    + "    "

  // ---------------------------------------------------------------------
  // The prompt template

  /** The prompt handed to the chat model: the context fills the first slot
      and the query the second. The web-search argument is accepted and
      ignored; the part of the template that used it is commented out. */
  function Prompt(query: string, context: string, webContext: string): (p: string)
    ensures |p| == |PromptHead| + |context| + |PromptMiddle| + |query| + |PromptTail|
    ensures p[..|PromptHead|] == PromptHead
    ensures p[|PromptHead|..|PromptHead| + |context|] == context
    ensures p[|PromptHead| + |context|..|PromptHead| + |context| + |PromptMiddle|] == PromptMiddle
    ensures p[|PromptHead| + |context| + |PromptMiddle|..|p| - |PromptTail|] == query
    ensures p[|p| - |PromptTail|..] == PromptTail
  {
    FiveParts(PromptHead, context, PromptMiddle, query, PromptTail);
    PromptHead + context + PromptMiddle + query + PromptTail
  }

  /** The prompt does not depend on the web-search argument. */
  lemma PromptIgnoresWebContext(query: string, context: string, w1: string, w2: string)
    ensures Prompt(query, context, w1) == Prompt(query, context, w2)
  {
  }

  /** Reads the two slots back out of a prompt, given the context's length
      (the slot texts may themselves contain the template's words): the
      head, the middle and the tail must stand at their offsets, and the
      slots are what lies between them. */
  function PromptSlots(p: string, contextLength: nat): (slots: Option<(string, string)>)
  {
    var contextEnd := |PromptHead| + contextLength;
    var queryStart := contextEnd + |PromptMiddle|;
    if |p| < queryStart + |PromptTail| then None
    else if p[..|PromptHead|] != PromptHead
         || p[contextEnd..queryStart] != PromptMiddle
         || p[|p| - |PromptTail|..] != PromptTail then None
    else Some((p[|PromptHead|..contextEnd], p[queryStart..|p| - |PromptTail|]))
  }

  /** Filling the template and reading its slots back gives the context and
      the query, in that order. */
  lemma PromptSlotsOfPrompt(query: string, context: string, webContext: string)
    ensures PromptSlots(Prompt(query, context, webContext), |context|) == Some((context, query))
  {
  }

  /** Every prompt whose slots can be read back is the template filled with
      them, so the template is the only shape a prompt has. */
  lemma PromptOfPromptSlots(p: string, contextLength: nat, webContext: string)
    requires PromptSlots(p, contextLength).Some?
    ensures var (c, q) := PromptSlots(p, contextLength).value;
            |c| == contextLength && Prompt(q, c, webContext) == p
  {
    Reassemble(p, PromptHead, PromptMiddle, PromptTail, contextLength);
  }

  // ---------------------------------------------------------------------
  // The answer policy

  /** Which exit of the policy produced the answer. */
  datatype Branch =
    | Greeted          // the query is a greeting token
    | NoContext        // nothing, or too little, was retrieved
    | ContextFallback  // the model's reply was judged degenerate
    | Generated        // the model's stripped reply is the answer

  /** Which collaborators were consulted to produce an answer. */
  datatype Trace = Trace(retrieverCalled: bool, modelCalled: bool)

  datatype Response = Response(text: string, branch: Branch, trace: Trace)

  /** No token is longer than nine characters. */
  lemma LongTextIsNoToken(text: string)
    requires |text| > 9
    ensures text !in Greetings
  {
  }

  /** The query, lower-cased and then stripped, is one of the tokens. */
  predicate IsGreeting(query: string) {
    Strip(Lower(query)) in Greetings
  }

  /** The retrieved page contents joined with line breaks. */
  function Context(pages: seq<string>): string {
    Join(pages, "\n")
  }

  /** Where the `i`-th page starts in the context. */
  function PageStart(pages: seq<string>, i: nat): nat
    requires i <= |pages|
  {
    JoinOffset(pages, "\n", i)
  }

  /** The context keeps every page whole and in retrieval order: each page
      stands at its offset, a line break follows every page but the last,
      and the context holds nothing else. This holds for any pages,
      including the multi-line documents of the corpus. */
  lemma ContextKeepsPages(pages: seq<string>)
    requires pages != []
    ensures |Context(pages)| == PageStart(pages, |pages| - 1) + |pages[|pages| - 1]|
    ensures forall i :: 0 <= i < |pages| ==>
              && PageStart(pages, i) + |pages[i]| <= |Context(pages)|
              && Context(pages)[PageStart(pages, i)..PageStart(pages, i) + |pages[i]|] == pages[i]
    ensures forall i :: 0 <= i < |pages| - 1 ==>
              && PageStart(pages, i) + |pages[i]| < |Context(pages)|
              && Context(pages)[PageStart(pages, i) + |pages[i]|] == '\n'
  {
    JoinPieces(pages, "\n");
    forall i | 0 <= i < |pages| - 1
      ensures && PageStart(pages, i) + |pages[i]| < |Context(pages)|
              && Context(pages)[PageStart(pages, i) + |pages[i]|] == '\n'
    {
      var end := PageStart(pages, i) + |pages[i]|;
      assert Context(pages)[end..end + 1] == "\n";
    }
  }

  /** Single-line pages can be recovered from the context by splitting it at
      its line breaks. */
  lemma ContextSplitsIntoPages(pages: seq<string>)
    requires pages != []
    requires forall i :: 0 <= i < |pages| ==> '\n' !in pages[i]
    ensures Split(Context(pages), '\n') == pages
  {
    SplitJoin(pages, '\n');
  }

  /** Too little context to ask the model about: nothing retrieved, or fewer
      than `MinContextLength` characters once stripped. */
  predicate LacksContext(pages: seq<string>) {
    pages == [] || |Strip(Context(pages))| < MinContextLength
  }

  /** The model's reply to the templated prompt, stripped. */
  function Reply(retrieve: string -> seq<string>, complete: string -> string, query: string): string {
    Strip(complete(Prompt(query, Context(retrieve(query)), "")))
  }

  /** The degenerate-reply test as written: an empty reply, or the
      upper-case phrase found in the lower-cased reply. */
  predicate IsDegenerate(reply: string) {
    reply == [] || Contains(Lower(reply), DontKnowAsWritten)
  }

  /** The degenerate-reply test with the lower-case phrase, which finds the
      phrase in any letter case. */
  predicate IsDegenerateIntended(reply: string) {
    reply == [] || Contains(Lower(reply), DontKnowIntended)
  }

  /** The short-circuit chain of `generate_response`, for a given
      degenerate-reply test: greeting, then too little context, then the
      model's reply, falling back to the context when the reply is judged
      degenerate. */
  function Policy(retrieve: string -> seq<string>, complete: string -> string,
                  degenerate: string -> bool, query: string): (r: Response)
    ensures r.branch == Greeted <==> IsGreeting(query)
    ensures r.trace.retrieverCalled <==> !IsGreeting(query)
    ensures r.trace.modelCalled <==> r.branch in {ContextFallback, Generated}
    ensures r.branch == NoContext <==> !IsGreeting(query) && LacksContext(retrieve(query))
    ensures r.branch == Generated ==> !degenerate(r.text)
    ensures r.branch == ContextFallback ==> degenerate(Reply(retrieve, complete, query))
    ensures r.branch == Greeted ==> r.text == GreetingReply
    ensures r.branch == NoContext ==> r.text == NoInformation
    ensures r.branch == ContextFallback ==>
              r.text == Context(retrieve(query)) && |Strip(r.text)| >= MinContextLength
    ensures r.branch == Generated ==> r.text == Reply(retrieve, complete, query)
  {
    if IsGreeting(query) then
      Response(GreetingReply, Greeted, Trace(false, false))
    else
      var pages := retrieve(query);
      var context := Context(pages);
      if pages == [] || |Strip(context)| < MinContextLength then
        Response(NoInformation, NoContext, Trace(true, false))
      else
        var reply := Strip(complete(Prompt(query, context, "")));
        if degenerate(reply) then
          Response(if context != [] then context else NoInformation, ContextFallback, Trace(true, true))
        else
          Response(reply, Generated, Trace(true, true))
  }

  /** The upper-case phrase never occurs in a lower-cased string, so the
      phrase half of the as-written test never fires. */
  lemma DontKnowNeverFound(s: string)
    ensures !Contains(Lower(s), DontKnowAsWritten)
  {
    var h := Lower(s);
    forall k | 0 <= k && k + |DontKnowAsWritten| <= |h|
      ensures !OccursAt(h, DontKnowAsWritten, k)
    {
      assert h[k..k + |DontKnowAsWritten|][0] == h[k];
      assert !IsUpperAscii(h[k]);
    }
  }

  /** `generate_response` as written. The test for a degenerate reply only
      fires on an empty reply, so the context comes back exactly when the
      stripped reply is empty, and every non-empty stripped reply is the
      answer, whatever it says. */
  function Respond(retrieve: string -> seq<string>, complete: string -> string, query: string): (r: Response)
    ensures r.branch == Greeted <==> IsGreeting(query)
    ensures r.branch == NoContext <==> !IsGreeting(query) && LacksContext(retrieve(query))
    ensures r.branch == ContextFallback <==>
              !IsGreeting(query) && !LacksContext(retrieve(query)) && Reply(retrieve, complete, query) == []
    ensures r.branch == Generated <==>
              !IsGreeting(query) && !LacksContext(retrieve(query)) && Reply(retrieve, complete, query) != []
    ensures r.trace.retrieverCalled <==> !IsGreeting(query)
    ensures r.trace.modelCalled <==> r.branch in {ContextFallback, Generated}
    ensures r.branch == Greeted ==> r.text == GreetingReply
    ensures r.branch == NoContext ==> r.text == NoInformation
    ensures r.branch == ContextFallback ==> r.text == Context(retrieve(query))
    ensures r.branch == Generated ==> r.text == Reply(retrieve, complete, query)
  {
    var r := Policy(retrieve, complete, IsDegenerate, query);
    DontKnowNeverFound(Reply(retrieve, complete, query));
    r
  }

  /** `generate_response` with the phrase test as evidently intended: a
      reply that says "I don't know" in any letter case is replaced by the
      context. */
  function RespondIntended(retrieve: string -> seq<string>, complete: string -> string, query: string): (r: Response)
    ensures r.branch == Greeted ==> r.text == GreetingReply
    ensures r.branch == NoContext ==> r.text == NoInformation
    ensures r.branch == ContextFallback ==> r.text == Context(retrieve(query))
    ensures r.branch == Generated ==> r.text == Reply(retrieve, complete, query)
    ensures r.branch == Greeted <==> IsGreeting(query)
    ensures r.branch == NoContext <==> !IsGreeting(query) && LacksContext(retrieve(query))
    ensures r.branch == ContextFallback <==>
              && !IsGreeting(query) && !LacksContext(retrieve(query))
              && IsDegenerateIntended(Reply(retrieve, complete, query))
    ensures r.branch == Generated ==> r.text != [] && !Contains(Lower(r.text), DontKnowIntended)
  {
    Policy(retrieve, complete, IsDegenerateIntended, query)
  }

  /** Where the two tests part: a reply the model reached that says
      "i don't know" in any letter case is returned verbatim as written, and
      replaced by the context as intended; on every other input the two
      agree. */
  lemma WrittenAndIntendedPart(retrieve: string -> seq<string>, complete: string -> string, query: string)
    ensures var written := Respond(retrieve, complete, query);
            var intended := RespondIntended(retrieve, complete, query);
            var reply := Reply(retrieve, complete, query);
            if written.branch == Generated && Contains(Lower(reply), DontKnowIntended) then
              written.text == reply && intended.text == Context(retrieve(query))
            else
              written.text == intended.text
  {
  }
}
