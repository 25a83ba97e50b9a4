# Research workspace client

A model of the research workspace page of the Next.js app. The page is `ResearchClient`
in `src/app/research/research-client.tsx`. A user adds plain-text documents to a list,
selects some of them and runs one of five AI analyses over the selection. The analyses
are a summary, keywords, a citation, a semantic search and a multi-document comparison.
Each answer lands in one field of an `AnalysisResults` record.

The model has these modules:

- `Text` models JavaScript's `String.prototype.trim` and the blank test `!s.trim()`. The
  add-document form and the search box both use that test.
- `Sequences` holds the order-keeping `filter` of JavaScript arrays.
- `Flows` holds the input and output records of the five server flows. A `Flows` value
  bundles them as opaque functions that either answer or throw. A thrown value is an
  `Error` with a message, or something else.
- `Workspace` holds the page's data:
  - documents and their ids;
  - the selection, `selectedDocuments`, and toggling;
  - deletion;
  - the results record, with its fields and the key-based blanking `{...prev, [key]: undefined}`;
  - a run of `runAnalysis` as pure functions. `Request` makes the checks and picks the
    flow call. `Complete` awaits the call and writes its answer. `Analyze` is the whole
    run.
- `Research.ResearchClient` is a class with the component's state as fields. Its
  handlers are methods that update those fields. Each method is proved against the
  `Workspace` functions.

The model follows the code as written, including these behaviours:

- A run of summary, keywords, citation or search uses only the *first* selected
  document. On the page this never matters: their buttons are shown only when exactly
  one document is selected (line 273), and several selected documents show only the
  comparison view (line 274). `Analyze` takes the handler as written and does not
  assume this.
- Toggling an id does not check that a document has that id.
- Neither `selectedDocuments` nor the delete button intersects the selection with the
  documents' ids. The page toggles only ids of listed documents (line 260), and deletion
  clears the selection (line 129). So every selected id belongs to a document, which
  `ResearchClient.Valid` keeps. In that state the number of selected documents equals
  the size of the selection.
- A run of `search` blanks the key `"search"`, but stores its answer under
  `searchResults`. So a failed or refused search leaves the passages of an earlier
  search in place, while every other kind clears its own field first
  (`FailedSearchKeepsOldPassages`, `FailedRunClearsOwnField`).

## Model

| member | source | states |
|---|---|---|
| Text.TrimStart | src/app/research/research-client.tsx:91 | the result is a suffix of the input, the dropped prefix is all whitespace, and the result does not start with whitespace |
| Text.TrimEnd | src/app/research/research-client.tsx:91 | the result is a prefix of the input, the dropped suffix is all whitespace, and the result does not end with whitespace |
| Text.Trim | src/app/research/research-client.tsx:91 | the trimmed string is no longer than the input and has whitespace at neither end |
| Text.BlankIffAllWhitespace | src/app/research/research-client.tsx:91 | `!s.trim()` holds exactly when every character of `s` is JavaScript whitespace, both directions |
| Text.TrimIsMiddle | src/app/research/research-client.tsx:91 | the trimmed string is the part of the input between a whitespace-only prefix and a whitespace-only suffix; with `Trim`'s non-whitespace ends this fixes the value |
| Text.IsBlank | src/app/research/research-client.tsx:91 | `!s.trim()`: the trimmed string is empty; `BlankIffAllWhitespace` states what that means |
| Text.TrimIdempotent | src/app/research/research-client.tsx:150 | a general law of trim: trimming an already trimmed string changes nothing |
| Sequences.Filter | src/app/research/research-client.tsx:86 | the filtered list keeps exactly the elements the predicate accepts, in their original order (a subsequence) |
| Sequences.FilterAppend | src/app/research/research-client.tsx:86 | a general law of filter: filtering a concatenation is the concatenation of the filtered parts |
| Sequences.FilterPartition | src/app/research/research-client.tsx:128 | filtering by a predicate and by its negation splits the list: the lengths add up and the two multisets together are the original |
| Workspace.IdsMembers | src/app/research/research-client.tsx:57-61 | an id is among the documents' ids exactly when some document has it |
| Workspace.SelectedDocuments | src/app/research/research-client.tsx:85-88 | the selected documents are the documents whose id is selected, every one of them, in list order |
| Workspace.Survivors | src/app/research/research-client.tsx:128 | the surviving documents are those whose id is not selected, every one of them, in list order |
| Workspace.Toggle | src/app/research/research-client.tsx:114-123 | toggling flips the membership of the given id and leaves every other id as it was |
| Workspace.ToggleTwice | src/app/research/research-client.tsx:114-123 | toggling the same id twice restores the selection |
| Workspace.SelectedCount | src/app/research/research-client.tsx:85-88 | with unique ids, the number of selected documents is the number of selected ids that some document has |
| Workspace.SelectedIdsCons | src/app/research/research-client.tsx:85-88 | with unique ids, the head document's id adds one to the count of selected existing ids exactly when it is selected |
| Workspace.HeadIdNotInTail | src/app/research/research-client.tsx:100 | with unique ids, the first document's id occurs nowhere else in the list |
| Workspace.SelectedCons | src/app/research/research-client.tsx:86 | the selection of a list is its head when selected, followed by the selection of its tail |
| Workspace.SelectedAreAllSelected | src/app/research/research-client.tsx:236 | with unique ids and every selected id belonging to a document, as many documents are selected as there are selected ids |
| Workspace.ToggleCount | src/app/research/research-client.tsx:114-125 | toggling the id of an existing document selects exactly one document fewer if it was selected and one more otherwise |
| Workspace.DeletePartition | src/app/research/research-client.tsx:127-131 | after deletion, the survivors and the deleted documents together are the old list (lengths and multisets), ids stay unique, and the remaining ids are the old ids minus the selection |
| Workspace.SurvivorsUnique | src/app/research/research-client.tsx:128 | filtering a list with unique ids keeps them unique and leaves exactly the unselected ids |
| Workspace.AppendFresh | src/app/research/research-client.tsx:99-104 | appending a document with an unused id keeps ids unique and adds exactly that id |
| Workspace.FieldNamed | src/app/research/research-client.tsx:63-69 | a key that names a field of the results record is that field's property name |
| Workspace.FieldNameRoundTrip | src/app/research/research-client.tsx:63-69 | every field is found again by its own property name |
| Workspace.Erase | src/app/research/research-client.tsx:135 | setting a field to undefined leaves it undefined, keeps the value of every other field, and changes nothing when the field was already undefined |
| Workspace.Blank | src/app/research/research-client.tsx:135 | `{...prev, [key]: undefined}`: the field that the key names is erased, and a key naming no field changes nothing; `BlankNamedField` states the effect |
| Workspace.BlankNamedField | src/app/research/research-client.tsx:135 | blanking a field by its own name clears that field and keeps every other field |
| Workspace.BlankedKeyIsStoredField | src/app/research/research-client.tsx:135-152 | the key blanked at the start of a run names the field the run writes for every kind except search, whose key `search` names no field |
| Flows.ErrorMessage | src/app/research/research-client.tsx:159 | the text reported for a thrown value: an `Error`'s own message, or "An unknown error occurred." for anything else |
| Workspace.Compared | src/app/research/research-client.tsx:155 | the comparison input lists every selected document in order, as its name and content |
| Workspace.Request | src/app/research/research-client.tsx:137-157 | the checks of a run in order and the flow call they lead to; `RequestChecks` states them |
| Workspace.RequestChecks | src/app/research/research-client.tsx:137-157 | an empty selection, a blank search query and a comparison of fewer than two documents are refused with their messages; a flow is called exactly when the kind is one of the five and its checks pass; the call is the kind's own flow and gets the first selected document's content, the citation format, the query, or all selected documents |
| Workspace.Complete | src/app/research/research-client.tsx:140-159 | awaiting a call: its flow's answer is written to the call's own field, or the call settles with the message of what the flow threw; `CompleteWritesOwnField` states this |
| Workspace.CompleteWritesOwnField | src/app/research/research-client.tsx:140-159 | an awaited call stores a result exactly when its flow answers; then its own field holds the flow's output verbatim and every other field is unchanged; otherwise the outcome carries `ErrorMessage` of the flow's thrown value |
| Workspace.Analyze | src/app/research/research-client.tsx:133-164 | one whole run: blank the kind's key, check and dispatch, then store the answer or report the failure; `AnalyzeOutcome` states its effect |
| Workspace.AnalyzeOutcome | src/app/research/research-client.tsx:133-164 | a run calls only the flow the checks choose; any failure shows a destructive "Analysis Failed" toast and leaves the record as the initial blanking made it; no selection means no call and "No document selected."; every refusal shows its own message ("Search query is empty.", "Select at least two documents to compare."); an unknown kind shows no toast; a thrown error shows the flow's message; when the flow answers, the run's record is exactly the one `Complete` stores (the flow's output in the call's own field); a called flow shows no toast exactly when it answers, and then defines its own field and changes no other field |
| Workspace.SuccessfulRunStoresOutput | src/app/research/research-client.tsx:140-157 | when a run calls a flow and shows no failure, the field of its kind holds that flow's output verbatim: the summary, keywords, citation, relevant passages or comparison the flow returned |
| Workspace.FailedRunClearsOwnField | src/app/research/research-client.tsx:135-160 | a failed summary, keywords, citation or comparison run leaves that kind's field undefined and every other field as it was |
| Workspace.FailedSearchKeepsOldPassages | src/app/research/research-client.tsx:135-152 | a failed or refused search leaves the whole record unchanged, including earlier search passages |
| Research.ResearchClient.SelectedDocuments | src/app/research/research-client.tsx:85-88 | the memoised selection: every document it lists has a selected id, and in a valid state it lists one document per selected id |
| Research.ResearchClient.constructor | src/app/research/research-client.tsx:72-81 | the initial state: no documents, no selection, empty results, closed dialog, empty inputs, not loading, citation format APA |
| Research.ResearchClient.SetAddDocOpen | src/app/research/research-client.tsx:239 | opening or closing the dialog sets only that flag |
| Research.ResearchClient.SetNewDocName | src/app/research/research-client.tsx:246 | typing a name sets only the name input |
| Research.ResearchClient.SetNewDocContent | src/app/research/research-client.tsx:247 | typing content sets only the content input |
| Research.ResearchClient.SetSearchQuery | src/app/research/research-client.tsx:191 | typing a query sets only the query |
| Research.ResearchClient.SetCitationFormat | src/app/research/research-client.tsx:201 | choosing a format sets only the citation format |
| Research.ResearchClient.AddDocument | src/app/research/research-client.tsx:90-112 | a blank name or content is refused with the error toast and changes nothing (both directions); otherwise the document with the fresh id and the untrimmed inputs is appended, ids stay unique and gain exactly the new id, the inputs are cleared, the dialog closes and the success toast names the document |
| Research.ResearchClient.Append | src/app/research/research-client.tsx:104 | appending a document with an unused id adds it at the end, keeps ids unique and adds exactly its id |
| Research.ResearchClient.ToggleSelection | src/app/research/research-client.tsx:114-125 | the selection flips the given id alone and the results are emptied; for a listed document, validity is kept and the selected list grows or shrinks by exactly one |
| Research.ResearchClient.DeleteSelected | src/app/research/research-client.tsx:127-131 | the documents become the unselected ones in order, ids stay unique, the remaining ids are the old ids minus the selection, the count drops by the number of selected documents, and the selection and results are emptied |
| Research.ResearchClient.RunAnalysis | src/app/research/research-client.tsx:133-164 | the run's new results, flow call and toast are those of `Workspace.Analyze` on the old results and the current selection, query and format, and loading ends false |
| Research.ResearchClient.Await | src/app/research/research-client.tsx:140-160 | awaiting a call stores the completed record when the flow answers, and otherwise leaves the results alone and reports the thrown message in a failure toast |

## Left out

- Rendering: the JSX, the tabs and `activeTab` (line 77), the icons and the disabled states of buttons are not modelled. The model has only the state that the handlers read and write.
- Toasts are returned from the methods as values. Showing and dismissing them is not modelled.
- `Date.now()`: the id `doc_<timestamp>` becomes a parameter of `AddDocument`. The method requires that the id is unused, which the clock gives in practice. Two additions within the same millisecond are not modelled.
- The five flows in `src/ai/flows/` are opaque functions of their inputs. Their prompts, the language model, the schema defaults (such as the APA default of the citation flow) and the two-step citation flow are not modelled.
- Asynchrony: `RunAnalysis` runs to completion in one step. The model does not cover interleaving with other handlers while a flow is awaited, or `isLoading` being true during the await. It also does not cover React batching and the functional `prev =>` updates seen by concurrent runs.
- Workspace.Blank: a key that names no field (such as `search`) leaves the record unchanged. JavaScript adds an own property with value `undefined` under that key, which nothing reads.
- Text.IsWhitespace: characters are Unicode scalar values, not UTF-16 code units. Lone surrogates are not modelled.
- Flows.ErrorMessage: it picks the message of an `Error` or the fallback text. Beyond that, the kind of the thrown value is not modelled, and neither are `Error` subclasses nor a message that is not a string.
