# Assessment generator core, modelled in Dafny

This project models the rule-like core of an AI assessment generator.

The backend (`backend/assessment/views.py`) does the following:
- turns a document upload into embedded, batched vectors;
- builds a question-generation prompt for one of five question types from a topic and a retrieved context;
- parses the model's JSON reply into questions tagged with their type;
- scores submitted answers through a judge model.

The frontend component `FillInBlankQuestion.js` does the following:
- cuts a question text into text pieces and blanks at runs of underscores;
- binds every blank to an answer slot;
- colours the blanks once results are shown.

All the foreign services are parameters of the model, given as functions:
- the generative model that judges an answer;
- the JSON decoder;
- the embedding service;
- the vector index's upsert;
- the file store and the document loaders.

Once these are fixed, every operation is deterministic. The modules follow the source:

| module | models |
|---|---|
| `Json` | decoded JSON values, and Python and JavaScript truthiness |
| `Text` | Python's `str.strip` with a character set, `" ".join`, and decimal rendering of ids |
| `ResponseParser` | `parse_generated_text` |
| `AnswerJudge` | `process_answer` |
| `Scoring` | `ScoreAnswersView.post` |
| `Prompts` | `generate_prompt`, and the context join of `GenerateAssessmentView.post` |
| `Embeddings` | `generate_gemini_embeddings` for a list of texts |
| `Ingestion` | `process_documents` |
| `Upload` | `FileUploadView.post` |
| `FillInBlank` | the splitting, slot update, display and colouring logic of `FillInBlankQuestion` |

Parts of the source change state step by step:
- the tagging loop of `parse_generated_text`;
- the embedding loop;
- the vector and batch loops of `process_documents`;
- the per-file loop of the upload view.

Each of these is a `method` with loop invariants. The method is proved equal to a specification function, and the lemmas state the properties of that function. Everything else is written as functions and lemmas.

## Model

| member | source | states |
|---|---|---|
| `Text.LStrip` | backend/assessment/views.py:158 | Python `lstrip(chars)`: the result is a suffix of the input, every removed character is in the set, and the result does not start with one |
| `Text.RStrip` | backend/assessment/views.py:158 | Python `rstrip(chars)`: the result is a prefix of the input, every removed character is in the set, and the result does not end with one |
| `Text.StripIsSlice` | backend/assessment/views.py:158 | `strip(chars)` returns the one contiguous slice that starts where `lstrip` stopped, with only set characters cut from either end and neither end of the slice in the set |
| `Text.StripIdempotent` | backend/assessment/views.py:158 | stripping twice with the same set is stripping once |
| `Text.LStripDropsPrefix` | backend/assessment/views.py:158 | a leading run of set characters makes no difference to `lstrip` |
| `Text.RStripDropsSuffix` | backend/assessment/views.py:158 | a trailing run of set characters makes no difference to `rstrip` |
| `Text.JoinLength` | backend/assessment/views.py:328-331 | `sep.join(ts)` has the total length of the parts plus one separator between each pair |
| `Text.SplitJoin` | backend/assessment/views.py:328-331 | splitting a join at its separator gives the parts back when no part contains the separator |
| `Text.NatToString` | backend/assessment/views.py:238 | the decimal rendering of an index is a non-empty string of digits |
| `Text.DecimalRoundTrip` | backend/assessment/views.py:238 | reading the decimal rendering back gives the index |
| `Text.NatToStringInjective` | backend/assessment/views.py:238 | distinct indices render differently |
| `ResponseParser.ParseGeneratedText` | backend/assessment/views.py:152-166 | a decode error gives `[]`. A decoded list gives every element in order, with `"type"` set to the request's type and no other key changed; a non-dict element makes the call raise. Any other decoded value raises unless iterating it does nothing, and it is then returned untouched |
| `ResponseParser.FenceRoundTrip` | backend/assessment/views.py:157-158 | a reply of ```` ``` ````, `json`, whitespace, a payload, whitespace and ```` ``` ```` reaches the decoder as exactly the payload, when the payload neither starts nor ends with a fence character or whitespace |
| `ResponseParser.FenceCharsGo` | backend/assessment/views.py:158 | `strip("```json")` removes the fence and the language tag when the body neither starts nor ends with one of `` ` ``, `j`, `s`, `o`, `n` |
| `ResponseParser.WhitespaceGoes` | backend/assessment/views.py:158 | the following `strip()` removes exactly the surrounding whitespace |
| `ResponseParser.UnfencedPassesThrough` | backend/assessment/views.py:157 | text that does not both start and end with a fence reaches the decoder unchanged |
| `ResponseParser.FenceStripEatsPayload` | backend/assessment/views.py:158 | the strip works on a set of characters, not a prefix: a fenced payload that starts with one of `` ` ``, `j`, `s`, `o`, `n` loses characters of its own |
| `ResponseParser.FenceCharsEatPayload` | backend/assessment/views.py:158 | the same, for the character-set strip alone |
| `ResponseParser.SetCharsEatPayload` | backend/assessment/views.py:158 | for any character set: a payload between a leading and a closing run of set characters, starting with a set character itself, comes out of the strip shorter than it went in |
| `AnswerJudge.ProcessAnswer` | backend/assessment/views.py:169-206 | a missing or falsy type, text, user answer or correct answer gives the zero result and no judge request. Otherwise exactly one request is made, carrying the fixed prompt. The score is 1 iff the answer is correct, and correct implies verified. Verified holds iff the reply parses as a number, and correct holds iff that number is at least 0.5 (NaN never is) |
| `AnswerJudge.JudgePromptEndsWithInstruction` | backend/assessment/views.py:180-188 | every judge prompt ends with the instruction to return only a probability |
| `AnswerJudge.NonObjectScoresZero` | backend/assessment/views.py:172-178 | an answer that is not a dict scores the zero result without a request (the `.get` raises and the handler of lines 204-206 answers zero) |
| `Scoring.RejectsMissingFields` | backend/assessment/views.py:370-374 | the reply is 400 iff the answers or the topic is missing or falsy |
| `Scoring.ScoresEveryAnswerInOrder` | backend/assessment/views.py:376-383 | for a list of answers, result i is the verdict on answer i, there is one result per answer, and the total is the number of correct answers, between 0 and the number of answers |
| `Scoring.SumCountsCorrect` | backend/assessment/views.py:378 | over well-formed results, the sum of scores is the count of correct ones and at most their number |
| `Scoring.NonListAnswersScoreZero` | backend/assessment/views.py:376-383 | a non-empty string or dict of answers is iterated (characters or keys), and every item scores zero |
| `Scoring.ZeroCount` | backend/assessment/views.py:378 | zero results sum to zero |
| `Scoring.NonIterableAnswersFail` | backend/assessment/views.py:376-389 | a truthy number or boolean as answers ends in the 500 reply |
| `Prompts.LookupType` | backend/assessment/views.py:265-293 | a type found by name has that name |
| `Prompts.LookupTypeName` | backend/assessment/views.py:265-292 | each of the five type names finds its own type |
| `Prompts.PromptExactlyForKnownTypes` | backend/assessment/views.py:265-293 | the prompt is empty iff the type is none of the five |
| `Prompts.ContextDoesNotAlterInstruction` | backend/assessment/views.py:266-291 | the context is spliced in at one fixed place, and the type's instruction line follows it unchanged |
| `Prompts.FillSplicesContext` | backend/assessment/views.py:266-291 | the same, for the shared template shape |
| `Prompts.PromptDeterminesType` | backend/assessment/views.py:265-292 | different types give different prompts for the same count, topic and context |
| `Prompts.KindInitial` | backend/assessment/views.py:267-288 | the five question kinds start with five different letters |
| `Prompts.FillKindAt` | backend/assessment/views.py:267-288 | the kind's first letter sits right after the question count |
| `Prompts.ContextKeepsMatchesInOrder` | backend/assessment/views.py:328-331 | the context is the matched texts joined by spaces (empty for no match), and it splits back into the matches, in order, when none contains a space |
| `Embeddings.EmbedOne` | backend/assessment/views.py:110-128 | one text's step, shared by the list loop and the single-string branch: the embedding is kept iff the service returns one of dimension 768, and is then the service's vector |
| `Embeddings.GenerateEmbeddings` | backend/assessment/views.py:106-118 | embeds the texts in order and stops at the first failure or wrong dimension, which the handler of lines 129-131 turns into None. The texts sent form a prefix of the input: all of it on success, and on failure everything before the last one sent was accepted. On success there is one vector of dimension 768 per text |
| `Ingestion.BatchesPartition` | backend/assessment/views.py:244-246 | the batches concatenate to the vector list in order; each holds 1 to 100 vectors, every batch but the last holds exactly 100, and there are ceil(n/100) of them |
| `Ingestion.BatchAt` | backend/assessment/views.py:245-246 | batch k is the slice starting at 100k with at most 100 vectors |
| `Ingestion.UpsertStopsAtFirstFailure` | backend/assessment/views.py:245-254 | batches are upserted in order; the first error stops the loop and is reported, and every batch before it was accepted |
| `Ingestion.CheckDimensions` | backend/assessment/views.py:224-226 | the re-check returns the first index whose embedding is not of dimension 768, which is where the source raises, and returns None iff every embedding has dimension 768 |
| `Ingestion.BuildVectors` | backend/assessment/views.py:235-241 | the vector loop pairs text i with embedding i under id `doc_i`, in order, exactly as the ingestion records say |
| `Ingestion.UpsertBatches` | backend/assessment/views.py:243-254 | the batch loop over `range(0, n, 100)` upserts exactly the batches in order and stops at the first error, as the upsert outcome says |
| `Ingestion.DocIdInjective` | backend/assessment/views.py:238 | two positions with the same id `doc_i` are the same position |
| `Ingestion.ProcessDocuments` | backend/assessment/views.py:216-258 | the loops compute exactly the ingestion outcome: embeddings first, then ids and texts, then the batches |
| `Ingestion.IdsAndTexts` | backend/assessment/views.py:235-241 | after a successful ingestion, vector i has id `doc_i`, text i and dimension 768, one per text, and all ids are distinct |
| `Ingestion.NoEmbeddingsNothingSent` | backend/assessment/views.py:219-221 | no texts, or one text without an acceptable embedding, fails with "Failed to generate embeddings" before any upsert |
| `Ingestion.IdsRestartPerCall` | backend/assessment/views.py:236-238 | every call numbers its vectors from `doc_0` |
| `Upload.UploadFiles` | backend/assessment/views.py:400-456 | no files gives 400. An index that cannot be described, or has the wrong dimension, gives 500. Otherwise the reply lists the processed names and the failed files as the per-file outcomes decide, in file order |
| `Upload.ProcessEach` | backend/assessment/views.py:421-450 | the per-file loop produces exactly those two lists |
| `Upload.HandleFile` | backend/assessment/views.py:425-450 | one file: a save error, then the MIME-type table, then a load error, then ingestion decide its outcome |
| `Upload.EachFileListedOnce` | backend/assessment/views.py:421-450 | every file lands in exactly one of the two lists, and nothing is processed iff every file failed |
| `Upload.UnsupportedTypeReported` | backend/assessment/views.py:429-442 | a saved file with a MIME type outside the table fails with "Unsupported file type" |
| `Upload.OkIffSomethingProcessed` | backend/assessment/views.py:456 | the reply is 200 iff some file was processed |
| `FillInBlank.SplitParts` | frontend/src/app/components/FillInBlankQuestion.js:19-20 | `split(/(_+)/g)` gives an odd number of parts that concatenate back to the text. Even parts hold no underscore, odd parts are non-empty underscore runs, and inner even parts are non-empty, so the runs are maximal |
| `FillInBlank.BlankCountIsRunCount` | frontend/src/app/components/FillInBlankQuestion.js:19-21 | the number of blank parts equals the number of underscore runs counted directly, left to right |
| `FillInBlank.BlanksNumberedLeftToRight` | frontend/src/app/components/FillInBlankQuestion.js:20-21 | blank part i uses slot floor(i/2), below the run count k; every slot 0..k-1 belongs to exactly one blank, part 2s+1 |
| `FillInBlank.SlotsOfParts` | frontend/src/app/components/FillInBlankQuestion.js:20-21 | the same numbering, for any alternating split |
| `FillInBlank.SetSlot` | frontend/src/app/components/FillInBlankQuestion.js:12-15 | the copied answers have the value in the slot and every other existing slot unchanged; setting past the end extends the array, with holes |
| `FillInBlank.TypingShowsInItsBlankOnly` | frontend/src/app/components/FillInBlankQuestion.js:12-28 | after typing, that blank shows what was typed and every other blank shows what it did before |
| `FillInBlank.AllCorrectOfArray` | frontend/src/app/components/FillInBlankQuestion.js:40 | for an array, "All correct!" shows iff every flag is truthy, and so for `[]`; with results hidden a blank has no colour (line 7) |
| `FillInBlank.ArrayStylesAgreeWithSummary` | frontend/src/app/components/FillInBlankQuestion.js:6-9 | with one flag per blank, every blank is green iff the summary of line 40 says "All correct!" |
| `FillInBlank.ScalarVerdictPaintsBlanksRed` | frontend/src/app/components/FillInBlankQuestion.js:8 | given the boolean `true`, the summary of line 40 says "All correct!" while each blank is red |
| `FillInBlank.CorrectedStylesAgreeWithSummary` | frontend/src/app/components/FillInBlankQuestion.js:6-9 | with the corrected colouring, for a scalar verdict as well as for one flag per blank, every blank is green iff "All correct!" shows on line 40 |

## Left out

- The Gemini generative and embedding models, the Pinecone index and the Django file store are not modelled. They are parameters, given as functions: the judge is a function of its prompt, embedding a function of the text, upsert a function of the batch that returns an error message or nothing, and saving and loading functions of the file.
- `float()` of the judge's reply is a parameter too, returning a finite number, an infinity, NaN or a parse error.
- `str()` of a value that is not a string, boolean or `None` is a parameter, as is `json.loads`.
- `make_api_request` is not modelled: its reply, already stripped, is what the judge function returns.
- The readiness polls with `time.sleep` are not modelled. The model assumes that `describe_index` and `pc.Index` succeed during ingestion (lines 228-232) and that the index becomes ready. A raising `describe_index` or `pc.Index`, which would fail the file with that message, is not modelled, and neither is a poll that never ends.
- Deleting the index when the module loads and `init_pinecone` are not modelled, because they are import-time side effects on the service.
- `RecursiveCharacterTextSplitter` chunking and the Unstructured and CSV loaders are library code. The model starts from the chunk texts, which the loader function returns.
- `asyncio.gather`, `sync_to_async` and `async_view` are not modelled. Scoring is an ordered map, which is what `gather` returns.
- `GenerateAssessmentView.post` is modelled only in its context join. Its request validation, topic embedding, index query and the reply around `parse_generated_text` are service plumbing.
- `Prompts.JoinContext` starts from the matched texts. A match without `metadata.text`, which raises `KeyError`, is not modelled. A text that is not a string makes the join raise, which is modelled as `None`.
- `generate_prompt`'s count, topic and context are taken as already rendered strings, because f-string rendering of other values is not modelled.
- The assessment type is taken as a string in `Prompts.GeneratePrompt` and `ResponseParser.ParseGeneratedText`, although the view passes the request's `assessmentType` unchecked (lines 301, 334 and 343). The model does not cover a non-string type. A hashable one, such as a number, would get the prompt `""`, and a list or dict would make the lookup raise `TypeError`.
- `generate_gemini_embeddings` for a single string is `Embeddings.EmbedOne` alone. No caller among the modelled operations passes a single string.
- Ingestion: the `ValueError` of the dimension re-check in `process_documents` (lines 224-226) has no outcome in `Ingestion.Ingest`. `Ingestion.ProcessDocuments` proves that `Ingestion.CheckDimensions` finds no bad index there, because every embedding that gets that far has dimension 768.
- Dict key order is not modelled. Iterating a dict of answers yields one stand-in key per entry, which is all that scoring needs, since every key scores zero.
- Judging a fill-in-the-blank answer slot by slot is not modelled, because the backend has no such judging: `process_answer` treats every question type alike.
- The rendering of `FillInBlankQuestion` (the JSX, the `disabled` flag, the correct-answer and explanation lines) is not modelled. Its answer slots are strings or holes.

## Findings

| source | as written | input that shows it | evidently intended | confidence | as-written member | corrected member |
|---|---|---|---|---|---|---|
| frontend/src/app/components/FillInBlankQuestion.js:8 | each blank is coloured by `isCorrect[index]`, although line 40 allows `isCorrect` to be a single value, and the backend's verdict `is_correct` is one boolean per answer (backend/assessment/views.py:194-197) | `isCorrect = true` with results shown: the summary says "All correct!", but `true[index]` is `undefined`, so every blank is red | a single verdict colours every blank, and an array gives one flag per blank, so the blanks agree with the summary | medium, not executed | `FillInBlank.ScalarVerdictPaintsBlanksRed` | `FillInBlank.CorrectedStylesAgreeWithSummary` |
