/**
 Worked cases of the answer policy on concrete inputs: the greeting test on
 padded and longer queries, the context-length threshold at 19 and 20
 characters, the single-record corpus end to end, and a reply that says
 "I don't know". Each case is assembled from small facts about its literals.
 */
module Scenarios {
  import opened Results
  import opened Text
  import opened QaLoader
  import opened RagChain

  /** A string with no whitespace at either end strips to itself. */
  lemma StripTrimmed(t: string)
    requires t == [] || (!IsSpace(t[0]) && !IsSpace(t[|t| - 1]))
    ensures Strip(t) == t
  {
    StripPadded([], t, []);
    assert [] + t + [] == t;
  }

  /** A single retrieved page is the whole context. */
  lemma SinglePageContext(page: string)
    ensures Context([page]) == page
  {
  }

  // ---------------------------------------------------------------------
  // Greetings

  lemma PaddedGreetingLowered()
    ensures Lower("  HeLLo \n") == "  hello \n"
  {
  }

  lemma PaddedGreetingStripped()
    ensures Strip("  hello \n") == "hello"
  {
    StripPadded("  ", "hello", " \n");
    assert "  " + "hello" + " \n" == "  hello \n";
  }

  /** Letter case and surrounding whitespace do not matter. */
  lemma PaddedGreeting()
    ensures IsGreeting("  HeLLo \n")
  {
    PaddedGreetingLowered();
    PaddedGreetingStripped();
  }

  /** A query longer than every token, with no whitespace at its ends
      after lower-casing, is not a greeting. */
  lemma LongQueryIsNoGreeting(query: string)
    requires |query| > 9
    requires !IsSpace(Lower(query)[0]) && !IsSpace(Lower(query)[|query| - 1])
    ensures !IsGreeting(query)
  {
    var l := Lower(query);
    StripTrimmed(l);
    LongTextIsNoToken(Strip(l));
  }

  /** Membership is exact: a longer query that starts with a token is not a
      greeting. */
  lemma LongerQueryIsNoGreeting()
    ensures !IsGreeting("hello there")
  {
    LongQueryIsNoGreeting("hello there");
  }

  const Query := "What are the admission requirements?"

  lemma QueryStartsWithLetter()
    ensures !IsSpace(Lower(Query)[0])
  {
  }

  lemma QueryEndsWithMark()
    ensures !IsSpace(Lower(Query)[|Query| - 1])
  {
  }

  lemma QueryIsNoGreeting()
    ensures !IsGreeting(Query)
  {
    QueryStartsWithLetter();
    QueryEndsWithMark();
    LongQueryIsNoGreeting(Query);
  }

  // ---------------------------------------------------------------------
  // The context-length threshold

  const Text19 := "abcdefghijklmnopqrs"
  const Text20 := "abcdefghijklmnopqrst"
  const Page19 := "  " + Text19 + "  "
  const Page20 := "  " + Text20 + "  "

  lemma Page19TooShort()
    ensures LacksContext([Page19])
  {
    SinglePageContext(Page19);
    StripPadded("  ", Text19, "  ");
  }

  lemma Page20LongEnough()
    ensures !LacksContext([Page20])
  {
    SinglePageContext(Page20);
    StripPadded("  ", Text20, "  ");
  }

  /** Nineteen characters once stripped are too little context, even with
      padding around them; the model is not consulted. */
  lemma NineteenCharactersFallBack(complete: string -> string)
    ensures var r := Respond(q => [Page19], complete, Query);
            r.text == NoInformation && !r.trace.modelCalled
  {
    QueryIsNoGreeting();
    Page19TooShort();
  }

  /** Twenty characters once stripped are enough: the model is consulted. */
  lemma TwentyCharactersReachTheModel(complete: string -> string)
    ensures var r := Respond(q => [Page20], complete, Query);
            r.trace.modelCalled && r.branch in {ContextFallback, Generated}
  {
    QueryIsNoGreeting();
    Page20LongEnough();
  }

  // ---------------------------------------------------------------------
  // The single-record corpus, end to end

  const Diploma := "high school diploma"
  const Answer := "You need a " + Diploma + " and a passport."
  const Corpus: seq<Record> := [map[QuestionKey := Query, AnswerKey := Answer]]

  lemma CorpusLoads()
    ensures LoadDocuments(Corpus).Success?
    ensures LoadDocuments(Corpus).value == [Document(FormatQA(Query, Answer))]
  {
    assert HasFields(Corpus[0]);
  }

  lemma DocumentLongEnough()
    ensures |Strip(FormatQA(Query, Answer))| >= MinContextLength
  {
    var page := FormatQA(Query, Answer);
    assert page[0] == 'Q' && page[|page| - 1] == '.';
    StripTrimmed(page);
  }

  lemma DocumentMentionsDiploma()
    ensures Contains(FormatQA(Query, Answer), Diploma)
  {
    var page := FormatQA(Query, Answer);
    var start := |page| - |Answer|;
    var k := |"You need a "|;
    assert Answer[k..k + |Diploma|] == Diploma;
    assert page[start + k..start + k + |Diploma|] == page[start..][k..k + |Diploma|];
    assert OccursAt(page, Diploma, start + k);
  }

  lemma EmptyReplyStripped()
    ensures Strip("") == ""
  {
  }

  /** The corpus's one document is retrieved, the model replies with
      nothing, and the answer is the document's text, which holds the
      stored answer. */
  lemma EmptyReplyReturnsTheDocument()
    ensures LoadDocuments(Corpus).Success?
    ensures var page := LoadDocuments(Corpus).value[0].pageContent;
            && page == "Question: " + Query + "\nAnswer: " + Answer
            && Respond(q => [page], p => "", Query).text == page
            && Contains(page, Diploma)
  {
    CorpusLoads();
    var page := FormatQA(Query, Answer);
    QueryIsNoGreeting();
    SinglePageContext(page);
    DocumentLongEnough();
    EmptyReplyStripped();
    DocumentMentionsDiploma();
  }

  // ---------------------------------------------------------------------
  // A reply that says it does not know

  const DontKnowReply := "I don't know."

  lemma DontKnowReplyStripped()
    ensures Strip(DontKnowReply) == DontKnowReply
  {
    StripTrimmed(DontKnowReply);
  }

  lemma DontKnowReplyLowered()
    ensures Lower(DontKnowReply) == "i don't know."
  {
  }

  lemma DontKnowReplyFound()
    ensures Contains(Lower(DontKnowReply), DontKnowIntended)
  {
    DontKnowReplyLowered();
    assert "i don't know."[0..|DontKnowIntended|] == DontKnowIntended;
    assert OccursAt("i don't know.", DontKnowIntended, 0);
  }

  /** The model answers "I don't know." to a query with enough context: the
      policy as written hands that sentence to the user, while the intended
      test would have returned the retrieved page. */
  lemma DontKnowReplyIsReturned()
    ensures Respond(q => [Page20], p => DontKnowReply, Query).text == DontKnowReply
    ensures RespondIntended(q => [Page20], p => DontKnowReply, Query).text == Page20
  {
    QueryIsNoGreeting();
    Page20LongEnough();
    SinglePageContext(Page20);
    DontKnowReplyStripped();
    DontKnowReplyFound();
  }
}
