# Vistula University assistant: answer policy and corpus formatter

This project is a Dafny model of the two pieces of logic in the university
question-answering assistant that have behaviour of their own:

- **The answer policy** (`generate_response` and its prompt template
  `prompt_fn`). For each user query it runs a short-circuit chain, and the
  first match wins:
  1. a greeting token gets a canned greeting;
  2. too little retrieved context gets the fixed "no information" sentence;
  3. otherwise the chat model is asked, and its stripped reply is the answer;
  4. when the reply is judged degenerate, the raw context is the answer
     instead.
- **The corpus formatter** (the document comprehension of
  `load_qa_and_create_vectorstore`). It turns every `{QUESTION, ANSWER}`
  record into one document `"Question: " + QUESTION + "\nAnswer: " + ANSWER`,
  in corpus order. A missing key aborts the whole load.

The retriever and the chat model are parameters of the policy:
`retrieve: string -> seq<string>` returns the page contents of the retrieved
documents in retrieval order, and `complete: string -> string` returns the
model's reply to a prompt. Every answer is a `Response` carrying:

- the text;
- the branch of the chain that produced it;
- a `Trace` saying whether the retriever and the model were consulted.

The trace is an ordinary field, so the properties about it are ordinary
postconditions.

Files:

- `results.dfy`: `Option` and `Result`.
- `text.dfy`: the string primitives the policy relies on. These are ASCII
  lower-casing, Python's argument-less `strip()` (with Python's exact
  whitespace set), substring search, and `"\n".join` with a split that
  inverts it.
- `qa_loader.dfy`: the record formatter and the loader comprehension, plus
  a parser that reads a document back into its question and answer.
- `rag_chain.dfy`: the prompt template, the policy as written (`Respond`),
  and the policy with the evidently intended "I don't know" test
  (`RespondIntended`).
- `scenarios.dfy`: worked cases on concrete inputs. They cover padded and longer greetings,
  the 19/20-character context threshold, the single-record corpus end to
  end, and a reply of "I don't know.".

Three facts about the code shape the model:

- The reply test at `rag_chain.py:108` looks for `"I don't know"`, with an
  upper-case `I`, inside `response.lower()`. That can never succeed (see
  Findings). The comment at line 107 says a useless reply should fall back
  to the stored context, so the model also carries the test with the
  lower-case phrase.
- The model call at line 105 sits in no `try` block, so a failing call
  raises out of `generate_response`. `complete` is a total function here,
  and this path is not modelled.
- The code configures no retrieval count. The pages are whatever
  `retrieve` returns.

At `rag_chain.py:109` the `else` alternative that returns the "no
information" sentence cannot be reached. The guard at line 100 has already
made the context non-empty. `Policy` keeps that alternative as written, and
its contract (`ContextFallback ==> text == Context(...)`) proves it dead.
`Respond` inherits the same postcondition.

## Model

| member | source | states |
|---|---|---|
| RagChain.Respond | rag_chain.py:89-111 | The branch is the greeting exactly when the lower-cased, stripped query is a token, and its text is the greeting. It is "no information" exactly when the query is not a greeting and the pages are empty or the stripped context has fewer than 20 characters, and its text is that sentence. It is the context exactly when the stripped reply is empty, and its text is the joined pages. Otherwise it is the stripped reply. The retriever is consulted exactly when the query is not a greeting. The model is consulted exactly on the last two branches. |
| RagChain.Policy | rag_chain.py:89-111 | For any degenerate-reply test, the chain keeps its order. A greeting consults neither collaborator. Too little context does not consult the model. A fallback answer is the context, with at least 20 stripped characters, and only follows a reply the test rejects. A generated answer is the stripped reply the test accepted. |
| RagChain.DontKnowNeverFound | rag_chain.py:108 | For every string, the upper-case phrase "I don't know" does not occur in its lower-cased form. So the phrase half of the degenerate test never fires. |
| RagChain.WrittenAndIntendedPart | rag_chain.py:108-109 | The as-written and intended policies differ only on one kind of input. That is a query that reaches the model and gets a reply containing "i don't know" in some letter case. There, as written, the reply is returned verbatim, and as intended, the context is returned. On every other input the two answers are equal. |
| RagChain.RespondIntended | rag_chain.py:108-109 | With the lower-case phrase, the greeting and "no information" branches are taken on the same inputs as written, with the same texts. The fallback happens exactly when context was found and the reply is empty or contains "i don't know" in some letter case, and its text is the context. A generated answer is the stripped reply and never contains that phrase in any letter case. |
| RagChain.Prompt | rag_chain.py:45-82 | The prompt is a fixed head, then the context, then a fixed middle, then the query, then a fixed tail. Its length is the sum of the five parts. |
| RagChain.PromptIgnoresWebContext | rag_chain.py:45-58 | The `web_context` argument does not affect the prompt. |
| RagChain.PromptSlotsOfPrompt | rag_chain.py:60-82 | Reading a filled template finds the head, middle and tail at their offsets, and the two slots read back are the context and then the query. |
| RagChain.PromptOfPromptSlots | rag_chain.py:60-82 | Any text that has the head, middle and tail at the template's offsets is the template filled with the two slices between them. |
| RagChain.LongTextIsNoToken | rag_chain.py:91 | No text longer than nine characters is a greeting token. |
| RagChain.IsGreeting | rag_chain.py:91-92 | Definition used by the contracts of `Respond` and `Policy`: the lower-cased, then stripped, query is one of the five tokens. |
| RagChain.Context | rag_chain.py:96-97 | Definition used by the contracts of `Respond` and `Policy`: the retrieved page contents joined with line breaks. `ContextKeepsPages` states what it holds. |
| RagChain.LacksContext | rag_chain.py:100 | Definition used by the contracts of `Respond` and `Policy`: no page was retrieved, or the stripped context has fewer than 20 characters. |
| RagChain.Reply | rag_chain.py:104-105 | Definition used by the contracts of `Respond` and `Policy`: the model's reply to the template filled with the context and the query, stripped. |
| RagChain.IsDegenerate | rag_chain.py:108 | Definition used by the contract of `Policy` when `Respond` instantiates it: the reply is empty, or the upper-case phrase occurs in the lower-cased reply. `DontKnowNeverFound` shows that the second half never holds. |
| RagChain.IsDegenerateIntended | rag_chain.py:107-108 | Definition used by the contract of `RespondIntended`: the reply is empty, or the lower-case phrase occurs in the lower-cased reply. |
| RagChain.ContextKeepsPages | rag_chain.py:96-97 | For any pages, including multi-line ones, the context holds every page whole, in retrieval order, at its offset. A line break follows every page but the last, and nothing else is in the context. |
| RagChain.ContextSplitsIntoPages | rag_chain.py:96-97 | When the pages are single lines, splitting the context at line breaks gives back exactly the pages. |
| Text.Lower | rag_chain.py:92 | Lower-casing keeps the length and maps every character through ASCII case folding. The result holds no upper-case ASCII letter. |
| Text.LowerIdempotent | rag_chain.py:92 | Lower-casing twice is lower-casing once. |
| Text.Strip | rag_chain.py:105 | The stripped text is a slice of the input. Everything before and after that slice is whitespace, and the slice neither starts nor ends with whitespace. The result is empty exactly when the input is all whitespace. |
| Text.StripPadded | rag_chain.py:100 | Surrounding whitespace is all that strip removes: padding a text that has non-space ends and stripping gives that text back. |
| Text.StripIdempotent | rag_chain.py:105 | Stripping twice is stripping once. |
| Text.Contains | rag_chain.py:108 | The substring test holds exactly when the needle occurs at some position of the haystack. |
| Text.IsSpace | rag_chain.py:92 | Definition used by the contract of `Strip`: the code points Python's `str.isspace` accepts, which argument-less `strip()` removes. |
| Text.Join | rag_chain.py:97 | Joining no parts gives the empty string, and joining one part gives that part. `JoinPieces` states the case of several parts. |
| Text.JoinPieces | rag_chain.py:97 | For any non-empty list of parts, the joined text is each part at its offset, in order, with the separator between consecutive parts, and its length is exactly that. |
| Text.JoinSplit | rag_chain.py:97 | Splitting any text on a character and joining the pieces with it gives the text back. |
| Text.SplitJoin | rag_chain.py:97 | Joining a non-empty list of separator-free pieces and splitting the result gives the pieces back. |
| QaLoader.LoadDocuments | qa_loader.py:20-23 | The load succeeds exactly when every record has both keys. On success there is one document per record, in order, and the i-th text is `"Question: " + QUESTION + "\nAnswer: " + ANSWER` of the i-th record. On failure there is no document list. The error names the first record that lacks a key, and `QUESTION` is named before `ANSWER`. |
| QaLoader.FormatQA | qa_loader.py:21 | A document text starts with `"Question: "`, holds the question right after that label, then `"\nAnswer: "`, and ends with the answer. Its length is the two labels plus the two fields, so it is exactly that sequence of four parts. |
| QaLoader.HasFields | qa_loader.py:21 | Definition used by the contract of `LoadDocuments`: the record has both the `QUESTION` and the `ANSWER` key. |
| QaLoader.MissingField | qa_loader.py:21 | The key reported for a record lacking fields is `QUESTION` or `ANSWER`, and it is absent from the record. `ANSWER` is reported only when `QUESTION` is present, so a record lacking `QUESTION` always reports `QUESTION`. |
| QaLoader.ParseFormat | qa_loader.py:21 | A document whose question is a single line reads back as exactly its question and answer, whatever the answer holds. |
| QaLoader.FormatParse | qa_loader.py:21 | Every text the parser accepts is the formatting of what it returns. |
| QaLoader.LoadedDocumentsParse | qa_loader.py:20-23 | Every loaded document with a single-line question reads back as its own record's fields. |
| Scenarios.PaddedGreeting | rag_chain.py:91-92 | `"  HeLLo \n"` is a greeting: case and surrounding whitespace are ignored. |
| Scenarios.LongerQueryIsNoGreeting | rag_chain.py:91-92 | `"hello there"` is not a greeting: membership is exact, not by prefix. |
| Scenarios.NineteenCharactersFallBack | rag_chain.py:100-101 | A page of 19 characters, padded with spaces, gives the "no information" sentence without consulting the model. |
| Scenarios.TwentyCharactersReachTheModel | rag_chain.py:100-105 | A padded page of exactly 20 characters reaches the model. |
| Scenarios.EmptyReplyReturnsTheDocument | rag_chain.py:96-109 | With the single-record admission corpus retrieved and an empty model reply, the answer is the document text, which holds "high school diploma". |
| Scenarios.DontKnowReplyIsReturned | rag_chain.py:108 | With enough context and the reply "I don't know.", the as-written policy returns that sentence. The intended policy returns the retrieved page. |

## Findings

| source | as written | input that shows it | evidently intended | confidence | as-written member | corrected member |
|---|---|---|---|---|---|---|
| rag_chain.py:108 | `"I don't know" in response.lower()` looks for an upper-case `I` in a lower-cased string, so the test is always false | a query with at least 20 characters of retrieved context and the model reply `"I don't know."` | a case-insensitive test for the phrase, so that such a reply falls back to the context, as the comment at line 107 describes | high; not executed | Scenarios.DontKnowReplyIsReturned | RagChain.RespondIntended |

`Respond` is the model of the code as written. `RespondIntended` runs the
same chain with the lower-case phrase. `RagChain.WrittenAndIntendedPart`
shows that the two differ on exactly the inputs in this row.

## Left out

- Chunking (`CharacterTextSplitter`, qa_loader.py:26-27): the splitting
  algorithm belongs to a library that is not part of this model.
- Embeddings, the Chroma vector store and its persistence (qa_loader.py:9-12,
  30-32): floating-point similarity search behind foreign calls. The
  retriever is the `retrieve` parameter. Its exceptions are not modelled:
  `retriever.invoke` at rag_chain.py:96 is in no `try` block either.
- The chat model client and the chain wiring (rag_chain.py:22-28, 85-86):
  a network call, modelled as the `complete` parameter. Its exceptions are
  not modelled.
- Reading the JSON file, `load_dotenv` and the API key lookup
  (qa_loader.py:16-17, rag_chain.py:10-13): I/O and environment access.
- `log_interaction` (rag_chain.py:116-127): appending timestamped lines to
  a file.
- `improved_app.py`: the Streamlit interface, session state and history
  display.
- Text.Lower: folds ASCII letters only, where Python's `str.lower` folds all
  of Unicode. The greeting tokens are ASCII. As far as Unicode's case tables
  go, no other character lowers to one of their letters on its own, so the
  greeting decision is the same. The "I don't know" result holds for full
  Unicode lower-casing too, because no character lowers to an upper-case `I`.
- QaLoader.LoadDocuments: records are string-to-string maps. Non-string
  field values, which the f-string would render with `str()`, are not
  modelled. Neither is a corpus that is not a list of objects, nor the
  document metadata.
