/**
 * The research workspace component: its state and the handlers that change it, run
 * one at a time. Rendering is not modelled; the handlers' notifications are returned.
 */
module Research {
  import opened Wrappers
  import opened Text
  import opened Flows
  import opened Workspace

  class ResearchClient {
    var documents: seq<Document>
    var selectedDocIds: set<string>
    var isAddDocOpen: bool
    var newDocName: string
    var newDocContent: string
    var isLoading: bool
    var results: AnalysisResults
    var searchQuery: string
    var citationFormat: string

    /**
     * Document ids are unique, which the fresh id of every addition keeps true, and every
     * selected id belongs to a document: the page toggles only the ids of listed
     * documents, and deleting clears the selection.
     */
    ghost predicate Valid()
      reads this`documents, this`selectedDocIds
    {
      UniqueIds(documents) && selectedDocIds <= Ids(documents)
    }

    /**
     * The memoised `selectedDocuments`: the selected documents in document order, one
     * for every selected id while the state is valid.
     */
    function SelectedDocuments(): (r: seq<Document>)
      reads this`documents, this`selectedDocIds
      ensures forall i :: 0 <= i < |r| ==> r[i].id in selectedDocIds
      ensures Valid() ==> |r| == |selectedDocIds|
    {
      var r := Workspace.SelectedDocuments(documents, selectedDocIds);
      assert Valid() ==> |r| == |selectedDocIds| by {
        if Valid() {
          SelectedAreAllSelected(documents, selectedDocIds);
        }
      }
      r
    }

    /** The component's initial state. */
    constructor ()
      ensures Valid()
      ensures documents == [] && selectedDocIds == {} && results == NoResults
      ensures !isAddDocOpen && newDocName == "" && newDocContent == ""
      ensures !isLoading && searchQuery == "" && citationFormat == "APA"
    {
      documents := [];
      selectedDocIds := {};
      isAddDocOpen := false;
      newDocName := "";
      newDocContent := "";
      isLoading := false;
      results := NoResults;
      searchQuery := "";
      citationFormat := "APA";
    }

    method SetAddDocOpen(open: bool)
      modifies this`isAddDocOpen
      ensures isAddDocOpen == open
    {
      isAddDocOpen := open;
    }

    method SetNewDocName(name: string)
      modifies this`newDocName
      ensures newDocName == name
    {
      newDocName := name;
    }

    method SetNewDocContent(content: string)
      modifies this`newDocContent
      ensures newDocContent == content
    {
      newDocContent := content;
    }

    method SetSearchQuery(query: string)
      modifies this`searchQuery
      ensures searchQuery == query
    {
      searchQuery := query;
    }

    method SetCitationFormat(format: string)
      modifies this`citationFormat
      ensures citationFormat == format
    {
      citationFormat := format;
    }

    /**
     * `handleAddDocument`, with `id` standing for the id made from the clock. A blank
     * name or content is refused with an error toast and nothing changes; otherwise the
     * document is appended with the untrimmed inputs, the inputs are cleared and the
     * dialog closes.
     */
    method AddDocument(id: string) returns (toast: Toast)
      requires Valid() && id !in Ids(documents)
      modifies this`documents, this`newDocName, this`newDocContent, this`isAddDocOpen
      ensures Valid()
      ensures toast.destructive <==> IsBlank(old(newDocName)) || IsBlank(old(newDocContent))
      ensures toast.destructive ==>
        && toast == MissingFieldsToast
        && documents == old(documents)
        && newDocName == old(newDocName) && newDocContent == old(newDocContent)
        && isAddDocOpen == old(isAddDocOpen)
      ensures !toast.destructive ==>
        && toast == AddedToast(old(newDocName))
        && documents == old(documents) + [Document(id, old(newDocName), old(newDocContent))]
        && Ids(documents) == old(Ids(documents)) + {id}
        && newDocName == "" && newDocContent == "" && !isAddDocOpen
    {
      if IsBlank(newDocName) || IsBlank(newDocContent) {
        toast := MissingFieldsToast;
        return;
      }
      var newDoc := Document(id, newDocName, newDocContent);
      Append(newDoc);
      newDocName := "";
      newDocContent := "";
      isAddDocOpen := false;
      toast := AddedToast(newDoc.name);
    }

    /** Appends a document whose id is not yet in use; ids stay unique. */
    method Append(d: Document)
      requires Valid() && d.id !in Ids(documents)
      modifies this`documents
      ensures Valid()
      ensures documents == old(documents) + [d]
      ensures Ids(documents) == old(Ids(documents)) + {d.id}
    {
      AppendFresh(documents, d);
      documents := documents + [d];
    }

    /**
     * `handleToggleSelection`: flips the membership of `docId` alone and empties the
     * results, since they may belong to a different selection.
     */
    method ToggleSelection(docId: string)
      modifies this`selectedDocIds, this`results
      ensures selectedDocIds == Toggle(old(selectedDocIds), docId)
      ensures docId in selectedDocIds <==> docId !in old(selectedDocIds)
      ensures forall x :: x != docId ==> (x in selectedDocIds <==> x in old(selectedDocIds))
      ensures results == NoResults
      ensures old(Valid()) && docId in Ids(documents) ==>
        && Valid()
        && |SelectedDocuments()| == |selectedDocIds|
        && |SelectedDocuments()| == if docId in old(selectedDocIds) then |old(SelectedDocuments())| - 1
                                    else |old(SelectedDocuments())| + 1
    {
      if Valid() && docId in Ids(documents) {
        ToggleCount(documents, selectedDocIds, docId);
        SelectedAreAllSelected(documents, Toggle(selectedDocIds, docId));
      }
      var newSet := selectedDocIds;
      if docId in newSet {
        newSet := newSet - {docId};
      } else {
        newSet := newSet + {docId};
      }
      selectedDocIds := newSet;
      results := NoResults;
    }

    /**
     * `handleDeleteSelected`: keeps exactly the unselected documents in their order,
     * then empties the selection and the results.
     */
    method DeleteSelected()
      requires Valid()
      modifies this`documents, this`selectedDocIds, this`results
      ensures Valid()
      ensures documents == Survivors(old(documents), old(selectedDocIds))
      ensures Ids(documents) == old(Ids(documents)) - old(selectedDocIds)
      ensures |documents| == |old(documents)| - |old(SelectedDocuments())|
      ensures selectedDocIds == {} && results == NoResults
      ensures SelectedDocuments() == []
    {
      DeletePartition(documents, selectedDocIds);
      documents := Survivors(documents, selectedDocIds);
      selectedDocIds := {};
      results := NoResults;
    }

    /**
     * `runAnalysis(kind)`: returns the flow call it made, if any, and the failure it
     * reported, if any. Its effect on the results is `Analyze` of the state it starts
     * from, and loading is off again afterwards on every path.
     */
    method RunAnalysis(kind: string, flows: Flows) returns (call: Option<FlowCall>, toast: Option<Toast>)
      modifies this`isLoading, this`results
      ensures !isLoading
      ensures Analysis(results, call, toast)
           == Analyze(old(results), kind, SelectedDocuments(), searchQuery, citationFormat, flows)
    {
      isLoading := true;
      results := Blank(results, kind);
      call, toast := None, None;
      var selected := SelectedDocuments();
      ghost var request := Request(kind, selected, searchQuery, citationFormat);
      if |selected| == 0 {
        toast := Some(FailureToast(NoDocumentSelected));
        assert request == Reject(NoDocumentSelected);
      } else {
        var doc := selected[0];
        if kind == SummaryKind {
          call := Some(SummaryCall(PdfSummarizationInput(doc.content)));
          assert request == Invoke(call.value);
          toast := Await(call.value, flows);
        } else if kind == KeywordsKind {
          call := Some(KeywordsCall(ExtractKeywordsInput(doc.content)));
          assert request == Invoke(call.value);
          toast := Await(call.value, flows);
        } else if kind == CitationKind {
          call := Some(CitationCall(GenerateCitationInput(doc.content, citationFormat)));
          assert request == Invoke(call.value);
          toast := Await(call.value, flows);
        } else if kind == SearchKind {
          if IsBlank(searchQuery) {
            toast := Some(FailureToast(EmptyQuery));
            assert request == Reject(EmptyQuery);
          } else {
            call := Some(SearchCall(SemanticSearchInput(doc.content, searchQuery)));
            assert request == Invoke(call.value);
            toast := Await(call.value, flows);
          }
        } else if kind == ComparisonKind {
          if |selected| < 2 {
            toast := Some(FailureToast(TooFewToCompare));
            assert request == Reject(TooFewToCompare);
          } else {
            call := Some(ComparisonCall(MultiDocumentComparisonInput(Compared(selected))));
            assert request == Invoke(call.value);
            toast := Await(call.value, flows);
          }
        } else {
          assert request == NoFlow;
        }
      }
      isLoading := false;
    }

    /**
     * The `await` of one flow call and the `setResults` after it: the flow's answer is
     * written to the call's own field, or what it threw becomes a failure toast.
     */
    method Await(c: FlowCall, flows: Flows) returns (toast: Option<Toast>)
      modifies this`results
      ensures match Complete(flows, c, old(results))
        case Stored(r) => results == r && toast == None
        case Threw(message) => results == old(results) && toast == Some(FailureToast(message))
    {
      toast := None;
      match c
      case SummaryCall(input) =>
        match flows.pdfSummarization(input) {
          case Done(res) => results := results.(summary := Some(res.summary));
          case Failed(e) => toast := Some(FailureToast(ErrorMessage(e)));
        }
      case KeywordsCall(input) =>
        match flows.extractKeywords(input) {
          case Done(res) => results := results.(keywords := Some(res.keywords));
          case Failed(e) => toast := Some(FailureToast(ErrorMessage(e)));
        }
      case CitationCall(input) =>
        match flows.generateCitation(input) {
          case Done(res) => results := results.(citation := Some(res.citation));
          case Failed(e) => toast := Some(FailureToast(ErrorMessage(e)));
        }
      case SearchCall(input) =>
        match flows.semanticSearch(input) {
          case Done(res) => results := results.(searchResults := Some(res.relevantPassages));
          case Failed(e) => toast := Some(FailureToast(ErrorMessage(e)));
        }
      case ComparisonCall(input) =>
        match flows.multiDocumentComparison(input) {
          case Done(res) => results := results.(comparison := Some(res.comparison));
          case Failed(e) => toast := Some(FailureToast(ErrorMessage(e)));
        }
    }
  }
}
