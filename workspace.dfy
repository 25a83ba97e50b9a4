/**
 * The values behind the research workspace: documents, the record of analysis
 * results, and the pure rules the client's handlers follow (which documents are
 * selected, which survive a deletion, how a selection toggles, and which flow an
 * analysis calls with which input and where its answer is stored).
 */
module Workspace {
  import opened Wrappers
  import opened Text
  import opened Sequences
  import opened Flows

  datatype Document = Document(id: string, name: string, content: string)

  /** The analysis record: every field is optional, `None` standing for `undefined`. */
  datatype AnalysisResults = AnalysisResults(
    summary: Option<string>,
    keywords: Option<seq<string>>,
    searchResults: Option<seq<string>>,
    citation: Option<string>,
    comparison: Option<string>)

  /** `{}`: no result is defined. */
  const NoResults := AnalysisResults(None, None, None, None, None)

  /** A notification shown to the user. */
  datatype Toast = Toast(title: string, description: string, destructive: bool)

  function FailureToast(message: string): Toast
  {
    Toast("Analysis Failed", message, true)
  }

  /** The toast for an add with a blank name or content. */
  const MissingFieldsToast := Toast("Error", "Please provide a name and content for the document.", true)

  /** The toast for a document added under `name`. */
  function AddedToast(name: string): Toast
  {
    Toast("Success", "Document \"" + name + "\" added.", false)
  }

  // ---------------------------------------------------------------------------
  // Documents and the selection

  /** The ids of the documents, in a set. */
  function Ids(docs: seq<Document>): set<string>
  {
    if docs == [] then {} else {docs[0].id} + Ids(docs[1..])
  }

  /** An id is in use exactly when some document carries it. */
  lemma {:induction false} IdsMembers(docs: seq<Document>)
    ensures forall i :: 0 <= i < |docs| ==> docs[i].id in Ids(docs)
    ensures forall id :: id in Ids(docs) ==> exists i :: 0 <= i < |docs| && docs[i].id == id
  {
    if docs != [] {
      IdsMembers(docs[1..]);
      forall i | 0 < i < |docs| ensures docs[i].id in Ids(docs) {
        assert docs[i] == docs[1..][i - 1];
      }
      forall id | id in Ids(docs[1..]) ensures exists i :: 0 <= i < |docs| && docs[i].id == id {
        var j :| 0 <= j < |docs| - 1 && docs[1..][j].id == id;
        assert docs[j + 1].id == id;
      }
    }
  }

  /** No two documents share an id. */
  ghost predicate UniqueIds(docs: seq<Document>)
  {
    forall i, j :: 0 <= i < j < |docs| ==> docs[i].id != docs[j].id
  }

  /** `documents.filter(doc => selectedDocIds.has(doc.id))`. */
  function SelectedDocuments(docs: seq<Document>, sel: set<string>): (r: seq<Document>)
    ensures |r| <= |docs|
    ensures IsSubsequence(r, docs)
    ensures forall i :: 0 <= i < |r| ==> r[i].id in sel
    ensures forall i :: 0 <= i < |docs| && docs[i].id in sel ==> docs[i] in r
  {
    Filter(docs, (d: Document) => d.id in sel)
  }

  /** `docs.filter(doc => !selectedDocIds.has(doc.id))`: what a deletion keeps. */
  function Survivors(docs: seq<Document>, sel: set<string>): (r: seq<Document>)
    ensures |r| <= |docs|
    ensures IsSubsequence(r, docs)
    ensures forall i :: 0 <= i < |r| ==> r[i].id !in sel
    ensures forall i :: 0 <= i < |docs| && docs[i].id !in sel ==> docs[i] in r
  {
    Filter(docs, (d: Document) => d.id !in sel)
  }

  /** The selection after clicking the checkbox of `id`. */
  function Toggle(sel: set<string>, id: string): (t: set<string>)
    ensures id in t <==> id !in sel
    ensures forall x :: x != id ==> (x in t <==> x in sel)
  {
    if id in sel then sel - {id} else sel + {id}
  }

  /** Toggling the same id twice restores the selection. */
  lemma ToggleTwice(sel: set<string>, id: string)
    ensures Toggle(Toggle(sel, id), id) == sel
  {
  }

  /** With unique ids, as many documents are selected as there are selected ids that exist. */
  lemma {:induction false} SelectedCount(docs: seq<Document>, sel: set<string>)
    requires UniqueIds(docs)
    ensures |SelectedDocuments(docs, sel)| == |sel * Ids(docs)|
  {
    if docs != [] {
      assert UniqueIds(docs[1..]);
      SelectedCount(docs[1..], sel);
      SelectedCons(docs, sel);
      SelectedIdsCons(docs, sel);
    }
  }

  /** The head's id is counted once, apart from the ids of the tail, when it is selected. */
  lemma SelectedIdsCons(docs: seq<Document>, sel: set<string>)
    requires UniqueIds(docs) && docs != []
    ensures |sel * Ids(docs)| == |sel * Ids(docs[1..])| + if docs[0].id in sel then 1 else 0
  {
    var d, rest := docs[0], docs[1..];
    HeadIdNotInTail(docs);
    var here: set<string> := if d.id in sel then {d.id} else {};
    assert sel * Ids(docs) == here + (sel * Ids(rest)) by {
      assert Ids(docs) == {d.id} + Ids(rest);
    }
    assert here !! (sel * Ids(rest));
  }

  /** With unique ids, the first document's id does not occur again later. */
  lemma HeadIdNotInTail(docs: seq<Document>)
    requires UniqueIds(docs) && docs != []
    ensures docs[0].id !in Ids(docs[1..])
  {
    forall i | 0 <= i < |docs| - 1 ensures docs[1..][i].id != docs[0].id {
      assert docs[1..][i] == docs[i + 1];
    }
    IdsMembers(docs[1..]);
  }

  /** The selection of a non-empty list: its head if selected, then the selection of its tail. */
  lemma SelectedCons(docs: seq<Document>, sel: set<string>)
    requires docs != []
    ensures SelectedDocuments(docs, sel)
         == (if docs[0].id in sel then [docs[0]] else []) + SelectedDocuments(docs[1..], sel)
  {
  }

  /**
   * When every selected id belongs to a document, as many documents are selected as
   * ids: the page's delete button, shown for a non-empty selection, then deletes something.
   */
  lemma SelectedAreAllSelected(docs: seq<Document>, sel: set<string>)
    requires UniqueIds(docs) && sel <= Ids(docs)
    ensures |SelectedDocuments(docs, sel)| == |sel|
  {
    SelectedCount(docs, sel);
    assert sel * Ids(docs) == sel;
  }

  /** Toggling an existing document's id selects exactly one document more or one fewer. */
  lemma ToggleCount(docs: seq<Document>, sel: set<string>, id: string)
    requires UniqueIds(docs) && id in Ids(docs)
    ensures |SelectedDocuments(docs, Toggle(sel, id))|
         == if id in sel then |SelectedDocuments(docs, sel)| - 1 else |SelectedDocuments(docs, sel)| + 1
  {
    SelectedCount(docs, sel);
    SelectedCount(docs, Toggle(sel, id));
    if id in sel {
      assert sel * Ids(docs) == (Toggle(sel, id) * Ids(docs)) + {id};
    } else {
      assert Toggle(sel, id) * Ids(docs) == (sel * Ids(docs)) + {id};
    }
  }

  /**
   * Deleting the selection removes exactly the selected ids: the survivors and the
   * selected documents together are the old documents, and the ids left are the old
   * ids minus the selection, each still unique.
   */
  lemma {:induction false} DeletePartition(docs: seq<Document>, sel: set<string>)
    requires UniqueIds(docs)
    ensures |SelectedDocuments(docs, sel)| + |Survivors(docs, sel)| == |docs|
    ensures multiset(SelectedDocuments(docs, sel)) + multiset(Survivors(docs, sel)) == multiset(docs)
    ensures UniqueIds(Survivors(docs, sel))
    ensures Ids(Survivors(docs, sel)) == Ids(docs) - sel
  {
    FilterPartition(docs, (d: Document) => d.id in sel, (d: Document) => d.id !in sel);
    SurvivorsUnique(docs, sel);
  }

  lemma {:induction false} SurvivorsUnique(docs: seq<Document>, sel: set<string>)
    requires UniqueIds(docs)
    ensures UniqueIds(Survivors(docs, sel))
    ensures Ids(Survivors(docs, sel)) == Ids(docs) - sel
  {
    if docs != [] {
      var d, rest := docs[0], docs[1..];
      assert UniqueIds(rest);
      SurvivorsUnique(rest, sel);
      HeadIdNotInTail(docs);
      var s := Survivors(rest, sel);
      if d.id !in sel {
        assert Survivors(docs, sel) == [d] + s;
        IdsMembers(s);
        forall j | 0 <= j < |s| ensures s[j].id != d.id {
          assert s[j].id in Ids(s);
        }
      } else {
        assert Survivors(docs, sel) == s;
      }
    }
  }

  /** Appending a document whose id is not in use keeps the ids unique and adds its id. */
  lemma AppendFresh(docs: seq<Document>, d: Document)
    requires UniqueIds(docs) && d.id !in Ids(docs)
    ensures UniqueIds(docs + [d])
    ensures Ids(docs + [d]) == Ids(docs) + {d.id}
  {
    var all := docs + [d];
    IdsMembers(docs);
    IdsMembers(all);
    forall id | id in Ids(all) ensures id in Ids(docs) + {d.id} {
      var i :| 0 <= i < |all| && all[i].id == id;
      if i < |docs| { assert all[i] == docs[i]; }
    }
    forall id | id in Ids(docs) ensures id in Ids(all) {
      var i :| 0 <= i < |docs| && docs[i].id == id;
      assert all[i] == docs[i];
    }
    assert all[|docs|] == d;
  }

  // ---------------------------------------------------------------------------
  // The analysis record

  /** The fields of the analysis record; a run stores its answer in exactly one of them. */
  datatype Field = Summary | Keywords | SearchResults | Citation | Comparison

  /** The property name of a field in the source's record type. */
  function FieldName(f: Field): string
  {
    match f
    case Summary => "summary"
    case Keywords => "keywords"
    case SearchResults => "searchResults"
    case Citation => "citation"
    case Comparison => "comparison"
  }

  /** The field a property name denotes, if any. */
  function FieldNamed(key: string): (f: Option<Field>)
    ensures f.Some? ==> FieldName(f.value) == key
  {
    if key == "summary" then Some(Summary)
    else if key == "keywords" then Some(Keywords)
    else if key == "searchResults" then Some(SearchResults)
    else if key == "citation" then Some(Citation)
    else if key == "comparison" then Some(Comparison)
    else None
  }

  /** Every field is found again from its property name. */
  lemma FieldNameRoundTrip(f: Field)
    ensures FieldNamed(FieldName(f)) == Some(f)
  {
  }

  /** Whether a field of the record is defined. */
  predicate Has(r: AnalysisResults, f: Field)
  {
    match f
    case Summary => r.summary.Some?
    case Keywords => r.keywords.Some?
    case SearchResults => r.searchResults.Some?
    case Citation => r.citation.Some?
    case Comparison => r.comparison.Some?
  }

  /** The record with field `f` made undefined. */
  function Erase(r: AnalysisResults, f: Field): (e: AnalysisResults)
    ensures !Has(e, f)
    ensures forall g :: g != f ==> Has(e, g) == Has(r, g)
    ensures Has(r, f) || e == r
    ensures f != Summary ==> e.summary == r.summary
    ensures f != Keywords ==> e.keywords == r.keywords
    ensures f != SearchResults ==> e.searchResults == r.searchResults
    ensures f != Citation ==> e.citation == r.citation
    ensures f != Comparison ==> e.comparison == r.comparison
  {
    match f
    case Summary => r.(summary := None)
    case Keywords => r.(keywords := None)
    case SearchResults => r.(searchResults := None)
    case Citation => r.(citation := None)
    case Comparison => r.(comparison := None)
  }

  /** `r` and `s` hold the same value in every field except possibly `f`. */
  predicate AgreeExcept(r: AnalysisResults, s: AnalysisResults, f: Field)
  {
    Erase(r, f) == Erase(s, f)
  }

  /**
   * `{ ...prev, [key]: undefined }`: when `key` names a field, that field becomes
   * undefined; any other key adds a property nothing reads, so the record is unchanged.
   */
  function Blank(r: AnalysisResults, key: string): AnalysisResults
  {
    match FieldNamed(key)
    case Some(f) => Erase(r, f)
    case None => r
  }

  /** Blanking a field's own name clears that field and keeps every other one. */
  lemma BlankNamedField(r: AnalysisResults, f: Field)
    ensures !Has(Blank(r, FieldName(f)), f)
    ensures AgreeExcept(Blank(r, FieldName(f)), r, f)
  {
    FieldNameRoundTrip(f);
  }

  // ---------------------------------------------------------------------------
  // Dispatching an analysis

  const SummaryKind := "summary"
  const KeywordsKind := "keywords"
  const CitationKind := "citation"
  const SearchKind := "search"
  const ComparisonKind := "comparison"

  const NoDocumentSelected := "No document selected."
  const EmptyQuery := "Search query is empty."
  const TooFewToCompare := "Select at least two documents to compare."

  /** The analysis kind whose branch makes this call. */
  function KindOf(c: FlowCall): string
  {
    match c
    case SummaryCall(_) => SummaryKind
    case KeywordsCall(_) => KeywordsKind
    case CitationCall(_) => CitationKind
    case SearchCall(_) => SearchKind
    case ComparisonCall(_) => ComparisonKind
  }

  /** The field a successful call's answer is written to. */
  function StoredField(c: FlowCall): Field
  {
    match c
    case SummaryCall(_) => Summary
    case KeywordsCall(_) => Keywords
    case CitationCall(_) => Citation
    case SearchCall(_) => SearchResults
    case ComparisonCall(_) => Comparison
  }

  /**
   * The key an analysis blanks is the name of the field it writes, for every kind but
   * one: a search blanks "search" and writes `searchResults`.
   */
  lemma BlankedKeyIsStoredField(c: FlowCall)
    ensures c.SearchCall? <==> FieldNamed(KindOf(c)) != Some(StoredField(c))
    ensures c.SearchCall? ==> FieldNamed(KindOf(c)) == None
  {
  }

  /** `selectedDocuments.map(d => ({ filename: d.name, content: d.content }))`. */
  function Compared(docs: seq<Document>): (r: seq<ComparedDocument>)
    ensures |r| == |docs|
    ensures forall i :: 0 <= i < |docs| ==> r[i] == ComparedDocument(docs[i].name, docs[i].content)
  {
    seq(|docs|, i requires 0 <= i < |docs| => ComparedDocument(docs[i].name, docs[i].content))
  }

  /** What a run decides before awaiting anything. */
  datatype Dispatch = Reject(message: string) | Invoke(call: FlowCall) | NoFlow

  /**
   * The checks of `runAnalysis` in their order (a selection first, then the kind with
   * its own check) and the flow call it makes.
   */
  function Request(kind: string, selected: seq<Document>, searchQuery: string, citationFormat: string): Dispatch
  {
    if selected == [] then Reject(NoDocumentSelected)
    else
      var doc := selected[0];
      if kind == SummaryKind then Invoke(SummaryCall(PdfSummarizationInput(doc.content)))
      else if kind == KeywordsKind then Invoke(KeywordsCall(ExtractKeywordsInput(doc.content)))
      else if kind == CitationKind then Invoke(CitationCall(GenerateCitationInput(doc.content, citationFormat)))
      else if kind == SearchKind then
        if IsBlank(searchQuery) then Reject(EmptyQuery)
        else Invoke(SearchCall(SemanticSearchInput(doc.content, searchQuery)))
      else if kind == ComparisonKind then
        if |selected| < 2 then Reject(TooFewToCompare)
        else Invoke(ComparisonCall(MultiDocumentComparisonInput(Compared(selected))))
      else NoFlow
  }

  /**
   * The checks of `runAnalysis` come in the source's order, and a flow is called
   * exactly when all of them pass, with the first selected document's content (or,
   * for a comparison, every selected document in order).
   */
  lemma RequestChecks(kind: string, selected: seq<Document>, searchQuery: string, citationFormat: string)
    ensures var d := Request(kind, selected, searchQuery, citationFormat);
      && (selected == [] ==> d == Reject(NoDocumentSelected))
      && (selected != [] && kind == SearchKind && IsBlank(searchQuery) ==> d == Reject(EmptyQuery))
      && (selected != [] && kind == ComparisonKind && |selected| < 2 ==> d == Reject(TooFewToCompare))
      && (d.NoFlow? <==> selected != [] && kind !in {SummaryKind, KeywordsKind, CitationKind, SearchKind, ComparisonKind})
      && (d.Invoke? <==>
           && selected != []
           && kind in {SummaryKind, KeywordsKind, CitationKind, SearchKind, ComparisonKind}
           && !(kind == SearchKind && IsBlank(searchQuery))
           && !(kind == ComparisonKind && |selected| < 2))
    ensures var d := Request(kind, selected, searchQuery, citationFormat);
      d.Invoke? ==> KindOf(d.call) == kind && match d.call
        case SummaryCall(input) => input.pdfContent == selected[0].content
        case KeywordsCall(input) => input.text == selected[0].content
        case CitationCall(input) => input == GenerateCitationInput(selected[0].content, citationFormat)
        case SearchCall(input) => input == SemanticSearchInput(selected[0].content, searchQuery)
        case ComparisonCall(input) => input.documents == Compared(selected)
  {
  }

  /** How an awaited call settles: the updated record, or the message of what it threw. */
  datatype Completion = Stored(results: AnalysisResults) | Threw(message: string)

  /** Whether the flow answers this call rather than throwing. */
  predicate Answers(flows: Flows, c: FlowCall)
  {
    match c
    case SummaryCall(input) => flows.pdfSummarization(input).Done?
    case KeywordsCall(input) => flows.extractKeywords(input).Done?
    case CitationCall(input) => flows.generateCitation(input).Done?
    case SearchCall(input) => flows.semanticSearch(input).Done?
    case ComparisonCall(input) => flows.multiDocumentComparison(input).Done?
  }

  /**
   * Awaiting the call and writing its answer: on success exactly the call's own field
   * is written, with the flow's output verbatim; on failure nothing is written.
   */
  function Complete(flows: Flows, c: FlowCall, prev: AnalysisResults): Completion
  {
    match c
    case SummaryCall(input) =>
      (match flows.pdfSummarization(input)
       case Done(res) => Stored(prev.(summary := Some(res.summary)))
       case Failed(e) => Threw(ErrorMessage(e)))
    case KeywordsCall(input) =>
      (match flows.extractKeywords(input)
       case Done(res) => Stored(prev.(keywords := Some(res.keywords)))
       case Failed(e) => Threw(ErrorMessage(e)))
    case CitationCall(input) =>
      (match flows.generateCitation(input)
       case Done(res) => Stored(prev.(citation := Some(res.citation)))
       case Failed(e) => Threw(ErrorMessage(e)))
    case SearchCall(input) =>
      (match flows.semanticSearch(input)
       case Done(res) => Stored(prev.(searchResults := Some(res.relevantPassages)))
       case Failed(e) => Threw(ErrorMessage(e)))
    case ComparisonCall(input) =>
      (match flows.multiDocumentComparison(input)
       case Done(res) => Stored(prev.(comparison := Some(res.comparison)))
       case Failed(e) => Threw(ErrorMessage(e)))
  }
  /**
   * A call settles as stored exactly when its flow answers; then its own field holds
   * the flow's output verbatim and every other field is as before.
   */
  lemma CompleteWritesOwnField(flows: Flows, c: FlowCall, prev: AnalysisResults)
    ensures var o := Complete(flows, c, prev);
      && (o.Stored? <==> Answers(flows, c))
      && (o.Stored? ==> Has(o.results, StoredField(c)) && AgreeExcept(o.results, prev, StoredField(c)))
    ensures var o := Complete(flows, c, prev);
      o.Stored? ==> match c
        case SummaryCall(input) => o.results.summary == Some(flows.pdfSummarization(input).output.summary)
        case KeywordsCall(input) => o.results.keywords == Some(flows.extractKeywords(input).output.keywords)
        case CitationCall(input) => o.results.citation == Some(flows.generateCitation(input).output.citation)
        case SearchCall(input) => o.results.searchResults == Some(flows.semanticSearch(input).output.relevantPassages)
        case ComparisonCall(input) =>
          o.results.comparison == Some(flows.multiDocumentComparison(input).output.comparison)
    ensures var o := Complete(flows, c, prev);
      o.Threw? ==> match c
        case SummaryCall(input) => o.message == ErrorMessage(flows.pdfSummarization(input).thrown)
        case KeywordsCall(input) => o.message == ErrorMessage(flows.extractKeywords(input).thrown)
        case CitationCall(input) => o.message == ErrorMessage(flows.generateCitation(input).thrown)
        case SearchCall(input) => o.message == ErrorMessage(flows.semanticSearch(input).thrown)
        case ComparisonCall(input) => o.message == ErrorMessage(flows.multiDocumentComparison(input).thrown)
  {
  }


  /** The effect of one run: the new record, the flow call made (if any), the failure shown (if any). */
  datatype Analysis = Analysis(results: AnalysisResults, call: Option<FlowCall>, toast: Option<Toast>)

  /**
   * One whole `runAnalysis(kind)`: blank `results[kind]`, check and dispatch, store the
   * answer or report the failure.
   */
  function Analyze(prev: AnalysisResults, kind: string, selected: seq<Document>,
                   searchQuery: string, citationFormat: string, flows: Flows): Analysis
  {
    var blanked := Blank(prev, kind);
    match Request(kind, selected, searchQuery, citationFormat)
    case Reject(message) => Analysis(blanked, None, Some(FailureToast(message)))
    case NoFlow => Analysis(blanked, None, None)
    case Invoke(c) =>
      match Complete(flows, c, blanked)
      case Stored(results) => Analysis(results, Some(c), None)
      case Threw(message) => Analysis(blanked, Some(c), Some(FailureToast(message)))
  }
  /**
   * What a run does, whatever the flows answer: it calls the flow `Request` chooses and
   * no other; a refusal shows its own message and a thrown error the flow's message, each
   * in a destructive toast that leaves the record as the initial blanking made it; an
   * unknown kind shows nothing; a success defines exactly the call's own field.
   */
  lemma AnalyzeOutcome(prev: AnalysisResults, kind: string, selected: seq<Document>,
                       searchQuery: string, citationFormat: string, flows: Flows)
    ensures var a := Analyze(prev, kind, selected, searchQuery, citationFormat, flows);
      var d := Request(kind, selected, searchQuery, citationFormat);
      && a.call == (if d.Invoke? then Some(d.call) else None)
      && (a.toast.Some? ==> a.toast.value.title == "Analysis Failed" && a.toast.value.destructive)
      && (a.call.None? || a.toast.Some? ==> a.results == Blank(prev, kind))
      && (selected == [] ==> a.call == None && a.toast == Some(FailureToast(NoDocumentSelected)))
      && (d.Reject? ==> a.toast == Some(FailureToast(d.message)))
      && (d.NoFlow? ==> a.toast == None)
      && (a.call.Some? ==> (a.toast.None? <==> Answers(flows, a.call.value)))
    ensures var a := Analyze(prev, kind, selected, searchQuery, citationFormat, flows);
      var d := Request(kind, selected, searchQuery, citationFormat);
      d.Invoke? ==>
        var o := Complete(flows, d.call, Blank(prev, kind));
        && (o.Stored? ==> a.results == o.results)
        && (o.Threw? ==> a.toast == Some(FailureToast(o.message)))
    ensures var a := Analyze(prev, kind, selected, searchQuery, citationFormat, flows);
      a.call.Some? && a.toast.None? ==>
        var f := StoredField(a.call.value);
        Has(a.results, f) && AgreeExcept(a.results, prev, f)
  {
    var d := Request(kind, selected, searchQuery, citationFormat);
    if d.Invoke? {
      CompleteWritesOwnField(flows, d.call, Blank(prev, kind));
    }
  }


  /**
   * A successful run ends with the flow's output, verbatim, in the field of the kind it
   * ran: a summary run whose flow answers X shows `summary == X`, and so on.
   */
  lemma SuccessfulRunStoresOutput(prev: AnalysisResults, kind: string, selected: seq<Document>,
                                  searchQuery: string, citationFormat: string, flows: Flows)
    requires var a := Analyze(prev, kind, selected, searchQuery, citationFormat, flows);
      a.call.Some? && a.toast.None?
    ensures var a := Analyze(prev, kind, selected, searchQuery, citationFormat, flows);
      a.call.Some? && match a.call.value
        case SummaryCall(input) => a.results.summary == Some(flows.pdfSummarization(input).output.summary)
        case KeywordsCall(input) => a.results.keywords == Some(flows.extractKeywords(input).output.keywords)
        case CitationCall(input) => a.results.citation == Some(flows.generateCitation(input).output.citation)
        case SearchCall(input) =>
          a.results.searchResults == Some(flows.semanticSearch(input).output.relevantPassages)
        case ComparisonCall(input) =>
          a.results.comparison == Some(flows.multiDocumentComparison(input).output.comparison)
  {
    var d := Request(kind, selected, searchQuery, citationFormat);
    AnalyzeOutcome(prev, kind, selected, searchQuery, citationFormat, flows);
    CompleteWritesOwnField(flows, d.call, Blank(prev, kind));
  }

  /**
   * A failed run of any kind other than search leaves that kind's field undefined,
   * while every other field keeps its value.
   */
  lemma FailedRunClearsOwnField(prev: AnalysisResults, kind: string, selected: seq<Document>,
                                searchQuery: string, citationFormat: string, flows: Flows)
    requires kind in {SummaryKind, KeywordsKind, CitationKind, ComparisonKind}
    requires Analyze(prev, kind, selected, searchQuery, citationFormat, flows).toast.Some?
    ensures var a := Analyze(prev, kind, selected, searchQuery, citationFormat, flows);
      var f := FieldNamed(kind).value;
      !Has(a.results, f) && AgreeExcept(a.results, prev, f)
  {
    BlankNamedField(prev, FieldNamed(kind).value);
  }

  /**
   * A failed search changes nothing in the record: in particular the passages of an
   * earlier search stay defined, because the key blanked at the start is "search".
   */
  lemma FailedSearchKeepsOldPassages(prev: AnalysisResults, selected: seq<Document>,
                                     searchQuery: string, citationFormat: string, flows: Flows)
    requires Analyze(prev, SearchKind, selected, searchQuery, citationFormat, flows).toast.Some?
    ensures Analyze(prev, SearchKind, selected, searchQuery, citationFormat, flows).results == prev
  {
  }
}
