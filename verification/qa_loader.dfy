/**
 The corpus loader's record formatter: every question/answer record of the
 corpus becomes one document whose text is
 `"Question: " + QUESTION + "\nAnswer: " + ANSWER`, in corpus order. A record
 that lacks one of the two keys raises, and the whole load aborts.
 */
module QaLoader {
  import opened Results
  import opened Text

  /** One decoded JSON object of the corpus, keyed by field name. */
  type Record = map<string, string>

  /** A LangChain document; only its page content is modelled. */
  datatype Document = Document(pageContent: string)

  /** The `KeyError` raised by the first record (in corpus order) that lacks
      a key, naming that key; `position` says which record it was. */
  datatype LoadError = MissingKey(position: nat, key: string)

  const QuestionKey := "QUESTION"
  const AnswerKey := "ANSWER"
  const QuestionLabel := "Question: "
  const AnswerLabel := "\nAnswer: "

  predicate HasFields(rec: Record) {
    QuestionKey in rec && AnswerKey in rec
  }

  /** The key a record lacking fields fails on: the f-string reads
      `QUESTION` before `ANSWER`. */
  function MissingField(rec: Record): (key: string)
    requires !HasFields(rec)
    ensures key == QuestionKey || key == AnswerKey
    ensures key !in rec
    ensures key == AnswerKey ==> QuestionKey in rec
  {
    if QuestionKey !in rec then QuestionKey else AnswerKey
  }

  /** The page content built from one record's question and answer. */
  function FormatQA(question: string, answer: string): (text: string)
    ensures |text| == |QuestionLabel| + |question| + |AnswerLabel| + |answer|
    ensures QuestionLabel <= text
    ensures text[|text| - |answer|..] == answer
    ensures text[|QuestionLabel|..|QuestionLabel| + |question|] == question
    ensures text[|QuestionLabel| + |question|..|QuestionLabel| + |question| + |AnswerLabel|] == AnswerLabel
  {
    QuestionLabel + question + AnswerLabel + answer
  }

  /** The comprehension over the corpus: one document per record, in order,
      or the error of the first record that lacks a key. */
  function LoadDocuments(records: seq<Record>): (r: Result<seq<Document>, LoadError>)
    ensures r.Success? <==> forall i :: 0 <= i < |records| ==> HasFields(records[i])
    ensures r.Success? ==> |r.value| == |records|
    ensures r.Success? ==> forall i :: 0 <= i < |records| ==>
              HasFields(records[i]) &&
              r.value[i] == Document(FormatQA(records[i][QuestionKey], records[i][AnswerKey]))
    ensures r.Failure? ==>
              && r.error.position < |records|
              && !HasFields(records[r.error.position])
              && r.error.key == MissingField(records[r.error.position])
              && forall j :: 0 <= j < r.error.position ==> HasFields(records[j])
  {
    if records == [] then Success([])
    else
      var last := records[|records| - 1];
      match LoadDocuments(records[..|records| - 1])
      case Failure(e) => Failure(e)
      case Success(docs) =>
        if HasFields(last) then
          Success(docs + [Document(FormatQA(last[QuestionKey], last[AnswerKey]))])
        else
          Failure(MissingKey(|records| - 1, MissingField(last)))
  }

  // ---------------------------------------------------------------------
  // The inverse of the formatter

  /** The index of the first `c` in `s`, if any. */
  function FirstIndex(s: string, c: char): (r: Option<nat>)
    ensures r.None? <==> c !in s
    ensures r.Some? ==> r.value < |s| && s[r.value] == c && c !in s[..r.value]
  {
    if s == [] then None
    else if s[0] == c then Some(0)
    else match FirstIndex(s[1..], c)
      case None => None
      case Some(i) =>
        assert s[1..][..i] == s[1..i + 1];
        assert s[..i + 1] == [s[0]] + s[1..i + 1];
        Some(i + 1)
  }

  /** Reads a page content back into its question and answer: the question
      runs up to the first line break, which must open the answer label. */
  function ParseQA(text: string): (r: Option<(string, string)>)
  {
    if |text| < |QuestionLabel| || text[..|QuestionLabel|] != QuestionLabel then None
    else
      var body := text[|QuestionLabel|..];
      match FirstIndex(body, '\n')
      case None => None
      case Some(i) =>
        if |body| - i < |AnswerLabel| || body[i..i + |AnswerLabel|] != AnswerLabel then None
        else Some((body[..i], body[i + |AnswerLabel|..]))
  }

  /** A question without line breaks is read back exactly, whatever the
      answer holds. */
  lemma ParseFormat(question: string, answer: string)
    requires '\n' !in question
    ensures ParseQA(FormatQA(question, answer)) == Some((question, answer))
  {
    var text := FormatQA(question, answer);
    var body := text[|QuestionLabel|..];
    assert body == question + AnswerLabel + answer;
    assert body[..|question|] == question;
    assert body[|question|] == '\n';
    assert FirstIndex(body, '\n') == Some(|question|);
    assert body[|question|..|question| + |AnswerLabel|] == AnswerLabel;
    assert body[|question| + |AnswerLabel|..] == answer;
  }

  /** Whatever `ParseQA` accepts is exactly the formatting of what it
      returns, with a question free of line breaks. */
  lemma FormatParse(text: string, question: string, answer: string)
    requires ParseQA(text) == Some((question, answer))
    ensures '\n' !in question
    ensures FormatQA(question, answer) == text
  {
    var body := text[|QuestionLabel|..];
    var i := FirstIndex(body, '\n').value;
    assert question == body[..i] && '\n' !in question;
    var j := i + |AnswerLabel|;
    assert answer == body[j..];
    assert body[i..j] == AnswerLabel;
    calc {
      FormatQA(question, answer);
      QuestionLabel + question + AnswerLabel + answer;
      { ConcatAssoc(QuestionLabel, question, AnswerLabel);
        ConcatAssoc(QuestionLabel, question + AnswerLabel, answer); }
      QuestionLabel + (body[..i] + body[i..j] + body[j..]);
      { ThreeSlices(body, i, j); }
      text[..|QuestionLabel|] + text[|QuestionLabel|..];
      text;
    }
  }

  /** Every document the loader produces reads back as its record's fields,
      as long as the question is a single line. */
  lemma LoadedDocumentsParse(records: seq<Record>, i: nat)
    requires LoadDocuments(records).Success?
    requires i < |records|
    requires '\n' !in records[i][QuestionKey]
    ensures ParseQA(LoadDocuments(records).value[i].pageContent)
            == Some((records[i][QuestionKey], records[i][AnswerKey]))
  {
    ParseFormat(records[i][QuestionKey], records[i][AnswerKey]);
  }
}
