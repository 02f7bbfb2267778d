/** The glue of `POST /api/analyze` in `backend/app/main.py` between the
    services: the 404 for a title without metadata, the screenshot chosen
    as evidence, and the metadata dictionary the analysis receives; with
    what that glue implies for the page. */
module Route {
  import opened Wrappers
  import opened Models
  import opened GoogleBooks
  import opened AiEngine
  import opened Page

  const NOT_FOUND_STATUS := 404
  const NOT_FOUND_DETAIL := "Buku tidak ditemukan"

  datatype HttpError = HttpError(status: int, detail: string)

  /** `if not metadata: raise HTTPException(404, ...)`: a found record is a
      non-empty dictionary, so only a missing one is refused. */
  function RequireMetadata(metadata: Option<BookMetadata>): (r: Result<BookMetadata, HttpError>)
    ensures r.Failure? <==> metadata.None?
    ensures r.Failure? ==> r.error == HttpError(NOT_FOUND_STATUS, NOT_FOUND_DETAIL)
    ensures r.Success? ==> r.value == metadata.value
  {
    match metadata
    case None => Failure(HttpError(NOT_FOUND_STATUS, NOT_FOUND_DETAIL))
    case Some(m) => Success(m)
  }

  /** `screenshots[0] if screenshots else ""`: the first capture, and no
      evidence at all when there is none. */
  function EvidenceImage(screenshots: seq<string>): (image: string)
    ensures screenshots == [] ==> image == ""
    ensures screenshots != [] ==> image == screenshots[0]
    ensures image != "" ==> image in screenshots
  {
    if screenshots == [] then "" else screenshots[0]
  }

  /** The dictionary built by the metadata search, seen as the analysis
      reads it: it always holds the `page_count` and `categories` keys. */
  function MetadataForAi(m: BookMetadata): (meta: Metadata)
    ensures meta.title == m.title && meta.categories == Some(m.categories)
    ensures meta.pageCount != NoPageCountKey
    ensures m.pageCount.None? <==> meta.pageCount == NullPageCount
    ensures m.pageCount.Some? ==> meta.pageCount == PageCount(m.pageCount.value)
  {
    Metadata(m.title, match m.pageCount case None => NullPageCount case Some(n) => PageCount(n), Some(m.categories))
  }

  /** Through the route, the analysis never prints "Tidak diketahui" for
      the page count: a book without one is described as having "None"
      pages. */
  lemma RouteNeverReportsUnknownPages(m: BookMetadata)
    ensures PageCountText(MetadataForAi(m).pageCount) != UNKNOWN_PAGES
    ensures m.pageCount.None? ==> PageCountText(MetadataForAi(m).pageCount) == "None"
  {
  }

  /** The page shows the route's 404 detail verbatim. */
  lemma NotFoundShownOnPage()
    ensures ErrorMessage(Some(RequireMetadata(None).error.detail)) == "Buku tidak ditemukan"
  {
  }

  /** A failed analysis reaches the page with a gray badge. */
  lemma FallbackBadgeIsGray(error: string)
    ensures BadgeColor(FallbackAnalysis(error).badgeColor) == GRAY_BADGE
  {
    UnknownColourIsGray();
  }
}
