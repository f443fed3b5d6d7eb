# Proposal pipeline: verified model of its data handling

The application turns a free-text project idea into a software proposal in
three language-model steps: extract a record of fields from the idea, ask
for the fields the model marked `"Not provided"`, and write the proposal.
The model calls, the prompts and the web pages are outside this model. What
is modelled is the data handling around them in `app.py`:

- **Extraction** (`extract_information`): the completion text is cut from
  its first `{` to its last `}` and handed to the JSON parser. A failed
  completion and a text missing either brace both surface as `RuntimeError`;
  a slice the parser rejects surfaces as `ValueError`.
- **Deterministic questioner** (`generate_questions_for_missing_info`): one
  question `"Please provide information for: <key>"` per field whose value
  is `"Not provided"`, in record order, or the completeness record
  `{"result": "No additional questions needed."}` when there is none. The
  application defines this function but never calls it.
- **Answer merge** (`generate_questionnaire`): the serialized record from
  the form has every `'` rewritten to `"` and is parsed. Each sentinel field
  is then overwritten in place by the answer the form holds for it, and
  gets an audit line `"Q: <key>\nA: <answer>"` (empty answer when the form
  has none).
- **Routing**: the home page produces the proposal only when the question
  dictionary maps `"result"` to exactly the completeness text. The answer
  handler goes straight to the proposal after the merge, with no second
  check.

Modules: `Wrappers` (Option, Result, the exceptions), `Records` (a Python
`dict` of strings as a sequence of entries with distinct keys, in
iteration order; `k in d`, `d[k]` and `d[k] = v` are `Lookup` and `Put`),
`Extractor`, `Questions`, `Questionnaire` and `Routing`.

`json.loads` is a parameter `parse: string -> Option<Dict>`: `None` is a
`JSONDecodeError`, `Some(d)` the decoded object. The completion service's
outcome is an input `Result<string, string>`, whose failure carries the
exception's message.

Behaviour of the code worth stating:
- The home page parses the model's questions with no fallback to the
  deterministic questioner. The questioner is modelled on its own.
- After a merge there is no second round of questions.
- A submitted answer is copied as it is, even when it is empty or is
  `"Not provided"` itself.
- Extraction failures are `RuntimeError` (missing brace, failed completion)
  and `ValueError` (parse failure); there is no dedicated extraction error
  type.
- After a successful merge the answer handler requests the proposal at
  once; a failed proposal request is wrapped as `RuntimeError` and shown on
  the error page.

## Model

| member | source | states |
|---|---|---|
| Records.Lookup | app.py:426-428 | `k in d` is false exactly when no entry has key `k`; otherwise `d[k]` is the value of an entry with that key |
| Records.Put | app.py:427 | after `d[k] = v`, `d[k]` is `v` and every other key reads as before; the key sequence is unchanged when `k` was present and gains `k` at the end when it was not |
| Records.PutExisting | app.py:427 | assigning to a present key replaces that entry at its own position |
| Records.PutFresh | app.py:278 | assigning to a new key appends one entry at the end |
| Extractor.Find | app.py:233 | `find` gives -1 exactly when the character is absent, otherwise the index of its first occurrence |
| Extractor.RFind | app.py:234 | `rfind` gives -1 exactly when the character is absent, otherwise the index of its last occurrence |
| Extractor.PySlice | app.py:237 | Python slicing: length clipped to the text, empty when start is not below end, characters taken from `lo` on |
| Extractor.Locate | app.py:233-237 | no slice exactly when a brace is missing; a non-empty slice starts with `{` and ends with `}` |
| Extractor.ExtractInformation | app.py:231-242 | failed completion and missing brace give RuntimeError with the wrapped message; a rejected slice gives ValueError; otherwise the parsed slice is returned |
| Extractor.LocateBetween | app.py:233-237 | the slice runs from the first `{` to the last `}` inclusive, and is empty when that `}` precedes that `{` |
| Extractor.FramedObjectLocated | app.py:233-237 | an object with no `{` before it and no `}` after it is located exactly |
| Extractor.FramedObjectExtracted | app.py:233-240 | for such an object extraction returns what the parser makes of it, or the decode ValueError |
| Extractor.CrossedBracesDecodeError | app.py:233-240 | when every `}` precedes every `{`, the parser gets the empty text and the failure is the decode ValueError, not the RuntimeError |
| Questions.MissingKeysMembers | app.py:276-277 | a key is reported missing exactly when some entry holds it with value `"Not provided"` |
| Questions.MissingKeysOrdered | app.py:276-278 | missing keys come in record order, so no question key repeats |
| Questions.MissingInfoQuestions | app.py:275-279 | the loop builds exactly the questions for the record, or the completeness record when none is missing |
| Questions.QuestionsForLookup | app.py:275-278 | when something is missing, the question keys are exactly the sentinel-valued keys, in record order, each mapped to `"Please provide information for: " + key` |
| Questions.QuestionsForComplete | app.py:279 | the completeness record is returned exactly when no value is `"Not provided"` |
| Questions.QuestionsNeverMixed | app.py:279 | the result is never empty and the completeness text never sits beside a question |
| Questions.OneMissingFieldExample | app.py:275-279 | `{"a": "Not provided", "b": "bar"}` yields `{"a": "Please provide information for: a"}` |
| Questionnaire.ReplaceQuotes | app.py:422 | same length, every `'` becomes `"`, every other character is unchanged, no `'` remains |
| Questionnaire.MergedRecord | app.py:424-427 | same keys in the same order; non-sentinel entries unchanged; a sentinel value becomes the submitted answer, or stays `"Not provided"` when there is none |
| Questionnaire.AuditLogFollowsMissingKeys | app.py:423-431 | the audit log has one line per sentinel-valued key, in record order, `"Q: k\nA: "` followed by the answer or nothing |
| Questionnaire.MergeLeavesUnanswered | app.py:424-427 | after the merge a key is still missing exactly when it was missing and the form had no answer for it, or answered `"Not provided"` |
| Questionnaire.MergeAnswers | app.py:423-431 | the in-place loop produces the merged record and the audit log |
| Questionnaire.GenerateQuestionnaire | app.py:422-431 | no `extracted_info` field gives KeyError; a rejected record text gives the decode error; otherwise the audit log and the merged record |
| Questionnaire.FillExample | app.py:424-430 | `{"a": "Not provided", "b": "x"}` with answer `a = "answer-a"` merges to `{"a": "answer-a", "b": "x"}` with log `["Q: a\nA: answer-a"]` |
| Routing.Route | app.py:397-402 | the proposal is chosen exactly when `"result"` maps to `"No additional questions needed."`; otherwise the questions are shown |
| Routing.RouteProposesWhenComplete | app.py:397 | on the deterministic questions, the proposal is chosen exactly when no field is `"Not provided"` |
| Routing.SubmitAnswers | app.py:448-456 | a failed merge shows its error; after a successful merge, a failed proposal request shows `RuntimeError("Error in generating proposal: " + message)` and a successful one proposes from the merged record, with no further check |
| Routing.SubmitSkipsRecheck | app.py:450-452 | a sentinel field with no answer stays unresolved, and the check of line 397 would ask again, yet the handler proposes |

## Left out

- Web handlers and rendering (`api_extract`, `api_generate_questions`, `api_generate_proposal`, the home page's request handling, HTTP status codes): web plumbing. Only the routing decision and the answer handler's control flow are modelled, with pages standing for what they would be rendered from.
- Routing.Route: models only the decision of lines 397-402; the home page's own failure path (a failed extraction, question or proposal request rendering the fixed error message of lines 404-406) is web plumbing and is not modelled.
- The prompt templates, `create_*_chain` and every `chain.run` call, including `generate_questions` and `generate_proposal`: an external, nondeterministic service. Extraction takes the completion's outcome as an input.
- `load_tags`, `preprocess_csv`, environment and model set-up: file I/O and process configuration.
- The JSON grammar: `json.loads` is a parameter. The model assumes it returns a string-to-string object; a decoded value of another JSON type, or a top-level value that is not an object (which would raise AttributeError at line 424), is not modelled.
- The text of a `JSONDecodeError` and the error page's message formatting: `DecodeError` carries no message.
- How the template serializes the record into the form's `extracted_info` field; a value containing an apostrophe is therefore not followed through the quote rewrite.
