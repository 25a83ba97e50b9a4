/**
 * The five model-backed flows, as seen from the client: each takes the input record
 * its schema declares and either returns the output record or throws. What the hosted
 * model answers is not modelled; a `Flows` value supplies an arbitrary answer for every
 * input, so every property proved about the client holds whatever the model does.
 */
module Flows {

  /** What a flow can throw: an `Error` carrying a message, or some other value. */
  datatype Thrown = ErrorObject(message: string) | NonError

  /** The settled outcome of awaiting a flow. */
  datatype FlowResult<+T> = Done(output: T) | Failed(thrown: Thrown)

  datatype PdfSummarizationInput = PdfSummarizationInput(pdfContent: string)
  datatype PdfSummarizationOutput = PdfSummarizationOutput(summary: string)

  datatype ExtractKeywordsInput = ExtractKeywordsInput(text: string)
  datatype ExtractKeywordsOutput = ExtractKeywordsOutput(keywords: seq<string>)

  datatype GenerateCitationInput = GenerateCitationInput(documentText: string, citationFormat: string)
  datatype GenerateCitationOutput = GenerateCitationOutput(citation: string)

  datatype SemanticSearchInput = SemanticSearchInput(documentContent: string, query: string)
  datatype SemanticSearchOutput = SemanticSearchOutput(relevantPassages: seq<string>)

  datatype ComparedDocument = ComparedDocument(filename: string, content: string)
  datatype MultiDocumentComparisonInput = MultiDocumentComparisonInput(documents: seq<ComparedDocument>)
  datatype MultiDocumentComparisonOutput = MultiDocumentComparisonOutput(comparison: string)

  /** The five flows the client imports, each an opaque fallible function of its input. */
  datatype Flows = Flows(
    pdfSummarization: PdfSummarizationInput -> FlowResult<PdfSummarizationOutput>,
    extractKeywords: ExtractKeywordsInput -> FlowResult<ExtractKeywordsOutput>,
    generateCitation: GenerateCitationInput -> FlowResult<GenerateCitationOutput>,
    semanticSearch: SemanticSearchInput -> FlowResult<SemanticSearchOutput>,
    multiDocumentComparison: MultiDocumentComparisonInput -> FlowResult<MultiDocumentComparisonOutput>)

  /** One invocation of one flow, with the input it was given. */
  datatype FlowCall =
    | SummaryCall(summaryInput: PdfSummarizationInput)
    | KeywordsCall(keywordsInput: ExtractKeywordsInput)
    | CitationCall(citationInput: GenerateCitationInput)
    | SearchCall(searchInput: SemanticSearchInput)
    | ComparisonCall(comparisonInput: MultiDocumentComparisonInput)

  /** The message the client's `catch` shows for a thrown value. */
  function ErrorMessage(t: Thrown): string
  {
    match t
    case ErrorObject(message) => message
    case NonError => "An unknown error occurred."
  }
}
