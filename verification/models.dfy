/** The records exchanged between the backend and the page: the analysis the
    language model returns and the search result the page renders. */
module Models {
  import opened Wrappers

  /** The classifier's verdict: reading level (jenjang), self-reported
      confidence, rationale (alasan), advice (saran) and badge colour name. */
  datatype AIAnalysis = AIAnalysis(
    jenjang: string,
    confidenceScore: int,
    alasan: string,
    saran: string,
    badgeColor: string)

  /** The body of a successful `POST /api/analyze`. */
  datatype BookResult = BookResult(
    title: string,
    authors: seq<string>,
    pageCount: Option<int>,
    categories: seq<string>,
    thumbnail: Option<string>,
    screenshots: seq<string>,
    analysis: AIAnalysis)

  /** Python truthiness of a value that is a string or None. */
  predicate Truthy(s: Option<string>) {
    s.Some? && s.value != ""
  }
}
