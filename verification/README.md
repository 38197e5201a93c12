# Patient dashboard and bookmark list: a Dafny model

This project models the small pieces of sequential logic in a web
application that sends patient data to a hosted language model and keeps a
list of bookmarked community resources. It does not model the user interface
or the language model.

- **Bookmark list** (`Bookmarks`, `Types`, `Text`). This is the list behind the
  "My Progress" page. A bookmark's identifier is derived from the
  resource's name and address: they are joined by `-`, each whitespace run
  becomes `-`, and the result is lower-cased. Operations: a de-duplicating
  add, a filtering remove, a status update and a membership test. All are
  pure functions over `seq<Bookmark>`.
- **Patient-data schema** (`Schemas`). Each of the three text fields must be
  at least 10 UTF-16 code units long. Each short field gets its own message,
  and the messages come in field order.
- **Analysis orchestrator** (`Flows`, `Actions`). The server action runs the
  pattern-analysis and diagnosis flows on the three medical fields. Only when
  some diagnosis comes back does it run the test-recommendation and
  treatment flows. The flows and the JSON serialisation are fields of a
  `Services` record. They are total functions that nothing constrains, so
  every property holds whatever the language model returns. Each request
  records its flow calls in a trace, so "not invoked" and "received exactly
  this input" can be stated.
- **Dashboard handlers** (`Dashboard`):
  - the microphone toggle;
  - the merge of speech-recognition results into a form field;
  - the per-diagnosis question map;
  - the two request paths. Submit validates the form. Re-analyse sends the
    form values unvalidated.

Facts about the code that the model makes explicit:

- All three patient fields are required, each at least 10 UTF-16 code units long.
- The question typed for a diagnosis is never passed to any flow. The
  server action takes the form data alone, so re-analysing sends the same
  request as submitting the same values when they pass validation.
  `Actions.NoQuestionForwarded` and
  `Dashboard.ReanalyzeIgnoresQuestion` state this.
- The `FullAnalysis` type is imported from `src/lib/types.ts`, but that file
  defines only `Resource` and `Bookmark`. The model takes the shape of
  `FullAnalysis` from the object that `getAiAnalysis` returns.

## Model

| member | source | states |
|---|---|---|
| Text.CollapseSpace | src/hooks/use-bookmarks.ts:39 | `replace(/\s+/g, '-')`: the result has no whitespace, is no longer than the input, and a string without whitespace is unchanged |
| Text.CollapseSingleSpaces | src/hooks/use-bookmarks.ts:39 | where no two whitespace characters are adjacent, collapsing runs equals replacing each whitespace character by `-` (an independent per-character definition) |
| Text.CollapseKeepPrefix | src/hooks/use-bookmarks.ts:39 | text without whitespace in front of any suffix comes through unchanged, and only the suffix is rewritten |
| Text.CollapseLeadingRun | src/hooks/use-bookmarks.ts:39 | a leading whitespace run of any length, followed by a non-whitespace character or the end, becomes exactly one `-` |
| Text.CollapseRun | src/hooks/use-bookmarks.ts:39 | for every whitespace run of any length that follows text without whitespace and precedes a non-whitespace character (or the end), the run becomes exactly one `-`, and the text after it is collapsed on its own |
| Text.Lower | src/hooks/use-bookmarks.ts:39 | `toLowerCase` keeps the length, maps each character independently and leaves no upper-case letter |
| Text.Normalize | src/hooks/use-bookmarks.ts:39 | the identifier normalisation yields no whitespace and no upper-case letter, and never lengthens its input |
| Text.NormalizeIdempotent | src/hooks/use-bookmarks.ts:39 | normalising a normalised string changes nothing |
| Text.Join | src/app/actions.ts:41 | `join` gives `""` for no elements and the element itself for one, and always starts with the first element |
| Text.JoinSnoc | src/app/actions.ts:41 | appending an element to a non-empty list appends the separator and that element, so the elements appear in list order |
| Text.JoinLength | src/app/actions.ts:41 | the joined string holds every element plus exactly one separator between each neighbouring pair |
| Text.Utf16Length | src/lib/schemas.ts:6 | a string's JavaScript length lies between its code-point count and twice that count |
| Text.Utf16LengthAppend | src/lib/schemas.ts:4-12 | the JavaScript length of a concatenation is the sum of the lengths |
| Bookmarks.BookmarkId | src/hooks/use-bookmarks.ts:39 | the identifier derived from name and address has no whitespace and no upper-case letter |
| Bookmarks.BookmarkIdIdempotent | src/hooks/use-bookmarks.ts:72 | re-deriving an identifier from a derived identifier gives it back |
| Bookmarks.IsBookmarked | src/hooks/use-bookmarks.ts:71-74 | the membership test holds iff some entry of the list carries the identifier derived from the resource's name and address |
| Bookmarks.IsBookmarkedIffAddNoop | src/hooks/use-bookmarks.ts:39-48 | adding leaves the list unchanged exactly when the membership test holds: both use the same identifier derivation |
| Bookmarks.AddBookmark | src/hooks/use-bookmarks.ts:38-48 | after adding, the resource is bookmarked under the same identifier the membership test uses. A resource already present leaves the list unchanged. Otherwise the list grows by one entry at the end, with the resource's fields, the derived id and status Not Started, and the old list as its prefix |
| Bookmarks.RemoveBookmark | src/hooks/use-bookmarks.ts:55-57 | the result holds no entry with that id. It keeps exactly the other entries, in their original order, and its length drops by the number of matching entries |
| Bookmarks.UpdateBookmarkStatus | src/hooks/use-bookmarks.ts:64-67 | length and order are kept. Entries with the id get the new status, keep their other fields and keep their id. All other entries are unchanged |
| Bookmarks.AddPreservesUnique | src/hooks/use-bookmarks.ts:40-48 | adding keeps identifiers unique |
| Bookmarks.RemovePreservesUnique | src/hooks/use-bookmarks.ts:56 | removing keeps identifiers unique |
| Bookmarks.UpdatePreservesUnique | src/hooks/use-bookmarks.ts:65-67 | updating a status keeps identifiers unique |
| Bookmarks.RemoveAbsentNoop | src/hooks/use-bookmarks.ts:56 | removing an id that is not on the list changes nothing |
| Bookmarks.RemoveIdempotent | src/hooks/use-bookmarks.ts:56 | removing twice is removing once |
| Bookmarks.RemoveSnoc | src/hooks/use-bookmarks.ts:56 | removing from a list with one entry appended equals removing from the list, followed by that entry only if its identifier differs |
| Bookmarks.RemoveUndoesAdd | src/hooks/use-bookmarks.ts:38-57 | adding a new resource and then removing its identifier restores the original list |
| Bookmarks.UpdateLastWins | src/hooks/use-bookmarks.ts:64-67 | of two status updates of the same id, the second wins |
| Bookmarks.UpdateKeepsBookmarked | src/hooks/use-bookmarks.ts:64-74 | a status update does not change which resources the membership test finds |
| Schemas.Validate | src/lib/schemas.ts:3-13 | accepted iff each field is at least 10 UTF-16 code units long, and then the data is returned unchanged. On rejection there is at least one issue, and an issue for a field exists iff that field is short |
| Schemas.ValidateIssues | src/lib/schemas.ts:3-13 | every issue names a short field with that field's own message, and issues follow the schema's field order, so no field is reported twice |
| Schemas.ValidateBoundary | src/lib/schemas.ts:6-11 | a field of length 9 is rejected with its message, as is an empty field; fields of length exactly 10 are accepted |
| Schemas.ValidateMonotone | src/lib/schemas.ts:3-13 | there is no upper bound: lengthening the fields of accepted data keeps it accepted |
| Actions.GetAiAnalysis | src/app/actions.ts:24-65 | the first two calls are always pattern analysis and diagnosis, each on exactly the three medical fields with no question. The request succeeds iff every call it made succeeded |
| Actions.PotentialConditions | src/app/actions.ts:41 | the condition list is empty for no diagnoses, exactly the name for one, and always starts with the first diagnosis's name |
| Actions.NoQuestionForwarded | src/app/actions.ts:24-32 | no diagnosis call made by an analysis carries a question |
| Actions.SecondStageGated | src/app/actions.ts:34-46 | the test and treatment flows are called iff both first-stage flows succeeded with a present, non-empty diagnosis list. Otherwise only two calls are made, and a successful result has empty tests and treatments |
| Actions.SecondStageInputs | src/app/actions.ts:39-56 | when the second stage runs, the test flow gets the medical fields plus the `", "`-joined diagnosis names. The treatment flow gets the first diagnosis's name and the serialised form data |
| Actions.OutputsPassedThrough | src/app/actions.ts:57-64 | on success the analysis and diagnoses are exactly the first-stage outputs. Tests and treatments are exactly the second-stage outputs when that stage ran |
| Actions.PotentialConditionsSingle | src/app/actions.ts:41 | with one diagnosis the condition list is exactly its name |
| Actions.PotentialConditionsSnoc | src/app/actions.ts:41 | each further diagnosis adds `", "` and its name at the end, so names appear in list order |
| Dashboard.PressMic | src/components/dashboard.tsx:81-103 | without recognition support nothing changes or starts. Pressing the listening field stops it and leaves no field listening. Pressing another field stops the current one, if any, and starts that field |
| Dashboard.PressTwiceRestores | src/components/dashboard.tsx:94-103 | from idle, or from that field listening, pressing the same microphone twice restores the listening state |
| Dashboard.MicEventStep | src/components/dashboard.tsx:81-131 | an end or error event leaves no field listening and starts nothing. A press without recognition support changes nothing. Pressing the field that is listening leaves no field listening and starts nothing. Recognition starts iff the event is a supported press of a field that is not the one listening, and then that field listens |
| Dashboard.RunMic | src/components/dashboard.tsx:94-131 | over a sequence of events, recognition starts at most once per event, nothing happens for no events, and a last end or error event leaves no field listening |
| Dashboard.UnsupportedNeverListens | src/components/dashboard.tsx:81-131 | without recognition support, no sequence of presses or end/error events ever starts recognition or makes a field listen |
| Dashboard.ListeningNeedsStart | src/components/dashboard.tsx:94-131 | from idle, a field is listening only after some start, and an end or error event always leaves no field listening |
| Dashboard.AppendFinal | src/components/dashboard.tsx:111 | appending a final transcript keeps the old text as a prefix and ends with the new transcript. One `' '` is inserted after the old text when it is non-empty, and no separator otherwise |
| Dashboard.AccFinal | src/components/dashboard.tsx:107-115 | processing results only ever extends the final transcript |
| Dashboard.DisplayValue | src/components/dashboard.tsx:116 | the field shows the final transcript as a prefix. With no interim text it shows exactly the final transcript. Otherwise it ends with the interim text, with exactly one `' '` between them when both are non-empty and no separator otherwise |
| Dashboard.OnResult | src/components/dashboard.tsx:107-117 | the event loop over the results from `resultIndex` on computes the final transcript and field value of the functional definitions. The old final text is a prefix of the new one, which is a prefix of the field value |
| Dashboard.InterimNeverFinal | src/components/dashboard.tsx:108-115 | dropping the interim results does not change the final transcript |
| Dashboard.FinalNeverInterim | src/components/dashboard.tsx:108-115 | final results contribute nothing to the interim text |
| Dashboard.FinalIsSpaceJoin | src/components/dashboard.tsx:111 | with non-empty final transcripts, the final text is the starting text (if any) and the final transcripts joined by single spaces: no leading, trailing or doubled separator |
| Dashboard.SessionFinal | src/components/dashboard.tsx:105-117 | the final transcript held across the events of one session always starts with the field's text at the time the microphone was pressed |
| Dashboard.SessionFinalGrows | src/components/dashboard.tsx:105-117 | within one listening session the field's starting text is a prefix of every final transcript, and each earlier final transcript is a prefix of each later one |
| Dashboard.HandleQuestionChange | src/components/dashboard.tsx:156-158 | the question for the given index is set to the typed value. The keys grow by that index only, and every other question is unchanged |
| Dashboard.ResultsAfter | src/components/dashboard.tsx:134-150 | the results panel shows the analysis iff the request succeeded, and then exactly that analysis |
| Dashboard.HandleAnalysis | src/components/dashboard.tsx:134-150 | whatever question is given, the diagnosis flow is called without one |
| Dashboard.OnSubmit | src/components/dashboard.tsx:152-154 | submitting through the schema resolver rejects, with the schema's issues and without calling any flow, iff validation fails. Otherwise it runs the analysis without a question |
| Dashboard.HandleReanalyze | src/components/dashboard.tsx:160-164 | re-analysis always calls both first-stage flows on the current form values, and the diagnosis flow without a question |
| Dashboard.ReanalyzeIgnoresQuestion | src/components/dashboard.tsx:160-164 | re-analysis gives the same run whatever questions were typed and whichever diagnosis asked. On valid values it is exactly a form submission |
| Dashboard.ReanalyzeSkipsValidation | src/components/dashboard.tsx:160-164 | for every form the schema rejects, submitting is refused, yet re-analysis still sends exactly those values to the pattern-analysis and diagnosis flows |

## Left out

- Storage and notifications: loading and saving the bookmark list in the browser's local storage, `JSON.parse`, the save-error path and all toasts. The model keeps only the list the hook would hold.
- Text.Lower: lower-cases only the ASCII letters A to Z. JavaScript's `toLowerCase` also maps non-ASCII letters, sometimes to several code points. That mapping is a large Unicode table and is not modelled.
- Text.IsSpace: follows the ECMAScript definition of `\s` code point by code point, but takes the Unicode space-separator set as fixed.
- Actions.GetAiAnalysis: the two calls of a stage run concurrently in the source, and a rejected promise fails the whole request. The model issues both calls in list order and reports the first failing one in that order. Which rejection reaches the caller first in time is not modelled.
- Flow bodies, prompt templates and the language model call are left out. Each flow is an unconstrained function of its input. This includes the prompt instruction to keep the original diagnosis when a question is given, which is unreachable because no question is forwarded.
- Output bounds: a likelihood in [0, 1], priorities of 1 or more and the ranking order are described to the model but never checked, so nothing assumes them. Numbers are `real`: no NaN, infinities or floating-point rounding.
- A null output is modelled only for the diagnosis flow. The source checks that output for presence. A missing output from the other three flows would be passed on as is, and the model does not represent it.
- `JSON.stringify` is the abstract `serialize` field of `Services`.
- The other flows (summarising documents, finding resources, personalised recommendations, drafting application answers), their forms and pages, and the duplicate schema file `src/lib/schemas/ai-schemas.ts` are left out.
- The speech-recognition browser API is reduced to "stopped" and "started" flags and to the result, end and error events. The `continuous` and `interimResults` settings are not modelled. The timing of an `onend` from a stopped session relative to a new start is also not modelled.
- React state batching, `useTransition`, the loading state and all rendering, including the percentage display of likelihoods, are left out.
