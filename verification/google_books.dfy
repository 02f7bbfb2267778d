/** The decisions `backend/app/services/google_books.py` takes once the
    Google Books volumes response has been decoded: which cover link to use,
    how its URL is rewritten to ask for the full-size image, which defaults
    fill missing fields, and the id-based cover used when there is no link. */
module GoogleBooks {
  import opened Wrappers
  import opened Models
  import opened Strings

  const EDGE_CURL := "&edge=curl"
  const ZOOM_IN := "&zoom=1"
  const ZOOM_OUT := "&zoom=0"

  /** Image-link keys from the largest picture to the smallest. */
  const SIZE_PRIORITY: seq<string> := ["extraLarge", "large", "medium", "thumbnail", "smallThumbnail"]

  const UNKNOWN_TITLE := "Unknown Title"

  /** The cover URL built from a volume id when the response has no image
      link; the id goes between these two parts. */
  const FALLBACK_PREFIX := "https://books.google.com/books/content?id="

  /** The parameters of the fallback URL's tail, which reads
      "&printsec=frontcover&img=1&zoom=0&edge=curl&source=gbs_api". */
  const PRINTSEC := "&printsec=frontcover"
  const IMG := "&img=1"
  const SOURCE := "&source=gbs_api"
  const FALLBACK_SUFFIX := PRINTSEC + IMG + ZOOM_OUT + EDGE_CURL + SOURCE

  function FallbackCoverUrl(bookId: string): string {
    FALLBACK_PREFIX + bookId + FALLBACK_SUFFIX
  }

  /** `url.replace('&edge=curl', '')` */
  function StripEdge(url: string): string {
    ReplaceAll(url, EDGE_CURL, "")
  }

  /** `url.replace('&zoom=1', '&zoom=0')` */
  function ZoomOut(url: string): string {
    ReplaceAll(url, ZOOM_IN, ZOOM_OUT)
  }

  // ---------------------------------------------------------------------
  // The zoom rewrite

  /** The shape of the two zoom parameters the proofs below rely on. */
  lemma ZoomPatterns()
    ensures |ZOOM_IN| == |ZOOM_OUT| == 7 && ZOOM_IN[0] == '&'
    ensures forall k :: 1 <= k < 7 ==> ZOOM_IN[k] != '&' && ZOOM_OUT[k] != '&'
    ensures forall k :: 0 <= k < 7 ==> ZOOM_IN[k] != '0'
    ensures forall k :: 0 <= k < 6 ==> ZOOM_OUT[k] == ZOOM_IN[k]
    ensures ZOOM_OUT[6] == '0' != ZOOM_IN[6]
  {
  }

  /** The zoom rewrite keeps the length, and every character it changes
      becomes a '0'. */
  lemma {:induction false} ZoomOutPointwise(s: string)
    ensures |ZoomOut(s)| == |s|
    ensures forall i :: 0 <= i < |s| ==> ZoomOut(s)[i] == s[i] || ZoomOut(s)[i] == '0'
  {
    ZoomPatterns();
    if s == [] {
    } else if StartsWith(s, ZOOM_IN) {
      ZoomOutPointwise(s[7..]);
      forall i | 0 <= i < 7 ensures ZoomOut(s)[i] == s[i] || ZoomOut(s)[i] == '0' {
        StartsWithAt(s, ZOOM_IN, i);
      }
    } else {
      ZoomOutPointwise(s[1..]);
    }
  }

  /** Nothing else changes: the only characters the zoom rewrite alters are
      the final '1's of "&zoom=1" matches. */
  lemma {:induction false} ZoomOutChangesOnlyMatchEnds(s: string)
    ensures |ZoomOut(s)| == |s|
    ensures forall i :: 0 <= i < |s| && ZoomOut(s)[i] != s[i] ==> 6 <= i && OccursAt(s, ZOOM_IN, i - 6)
  {
    ZoomPatterns();
    ZoomOutPointwise(s);
    var z := ZoomOut(s);
    if s == [] {
    } else if StartsWith(s, ZOOM_IN) {
      var rest := ZoomOut(s[7..]);
      ZoomOutChangesOnlyMatchEnds(s[7..]);
      assert z == ZOOM_OUT + rest;
      forall i | 0 <= i < |s| && z[i] != s[i] ensures 6 <= i && OccursAt(s, ZOOM_IN, i - 6) {
        if i < 7 {
          StartsWithAt(s, ZOOM_IN, i);
          assert s[0..7] == s[..7];
        } else {
          assert z[i] == rest[i - 7] && s[i] == s[7..][i - 7];
          OccursAtShift(s, 7, ZOOM_IN, i - 13);
        }
      }
    } else {
      var rest := ZoomOut(s[1..]);
      ZoomOutChangesOnlyMatchEnds(s[1..]);
      assert z == [s[0]] + rest;
      forall i | 0 <= i < |s| && z[i] != s[i] ensures 6 <= i && OccursAt(s, ZOOM_IN, i - 6) {
        assert i >= 1;
        assert z[i] == rest[i - 1] && s[i] == s[1..][i - 1];
        OccursAtShift(s, 1, ZOOM_IN, i - 7);
      }
    }
  }

  /** A string that does not open with "&zoom=1" does not after the
      rewrite either. */
  lemma ZoomOutHead(s: string)
    ensures !StartsWith(s, ZOOM_IN) ==> !OccursAt(ZoomOut(s), ZOOM_IN, 0)
  {
    ZoomPatterns();
    ZoomOutPointwise(s);
    if |s| >= 7 && !StartsWith(s, ZOOM_IN) {
      var k :| 0 <= k < 7 && s[..7][k] != ZOOM_IN[k];
      OccursAtChar(ZoomOut(s), ZOOM_IN, 0, k);
    }
  }

  lemma {:induction false} ZoomOutNoZoomInAt(s: string, i: int)
    ensures !OccursAt(ZoomOut(s), ZOOM_IN, i)
  {
    ZoomPatterns();
    var z := ZoomOut(s);
    if s == [] || i < 0 {
    } else if StartsWith(s, ZOOM_IN) {
      var rest := ZoomOut(s[7..]);
      assert z == ZOOM_OUT + rest;
      if i == 0 {
        OccursAtChar(z, ZOOM_IN, 0, 6);
        assert z[6] == '0';
      } else if i < 7 {
        OccursAtChar(z, ZOOM_IN, i, 0);
        assert z[i] == ZOOM_OUT[i];
      } else {
        ZoomOutNoZoomInAt(s[7..], i - 7);
        if i + 7 <= |z| {
          assert z[i..i + 7] == rest[i - 7..i];
        }
      }
    } else if i == 0 {
      ZoomOutHead(s);
    } else {
      var rest := ZoomOut(s[1..]);
      assert z == [s[0]] + rest;
      ZoomOutNoZoomInAt(s[1..], i - 1);
      if i + 7 <= |z| {
        assert z[i..i + 7] == rest[i - 1..i + 6];
      }
    }
  }

  /** No "&zoom=1" remains after the rewrite. */
  lemma ZoomOutClears(s: string)
    ensures !Contains(ZoomOut(s), ZOOM_IN)
  {
    forall i ensures !OccursAt(ZoomOut(s), ZOOM_IN, i) {
      ZoomOutNoZoomInAt(s, i);
    }
  }

  /** "&zoom=1" cannot overlap itself: a second match starts 7 or more
      characters after the first. */
  lemma ZoomInNoSelfOverlap(s: string, i: int)
    ensures StartsWith(s, ZOOM_IN) && OccursAt(s, ZOOM_IN, i) ==> i == 0 || i >= 7
  {
    ZoomPatterns();
    StartsWithAt(s, ZOOM_IN, i);
    OccursAtChar(s, ZOOM_IN, i, 0);
  }

  /** Every "&zoom=1" of the input becomes "&zoom=0" in place. */
  lemma {:induction false} ZoomOutRewritesEvery(s: string, i: int)
    requires OccursAt(s, ZOOM_IN, i)
    ensures OccursAt(ZoomOut(s), ZOOM_OUT, i)
  {
    ZoomPatterns();
    var z := ZoomOut(s);
    assert s[0..7] == s[..7];
    if StartsWith(s, ZOOM_IN) {
      var rest := ZoomOut(s[7..]);
      assert z == ZOOM_OUT + rest;
      ZoomInNoSelfOverlap(s, i);
      if i == 0 {
        assert z[0..7] == ZOOM_OUT;
      } else {
        assert s[7..][i - 7..i] == s[i..i + 7];
        ZoomOutRewritesEvery(s[7..], i - 7);
        ZoomOutPointwise(s[7..]);
        assert z[i..i + 7] == rest[i - 7..i];
      }
    } else {
      var rest := ZoomOut(s[1..]);
      assert z == [s[0]] + rest;
      assert s[1..][i - 1..i + 6] == s[i..i + 7];
      ZoomOutRewritesEvery(s[1..], i - 1);
      ZoomOutPointwise(s[1..]);
      assert z[i..i + 7] == rest[i - 1..i + 6];
    }
  }

  /** One `&name=value` parameter of the fallback URL's tail other than
      "&zoom=1" is kept by the zoom rewrite. */
  lemma ParameterKept(x: string)
    requires x != [] && x[0] == '&'
    requires forall k :: 1 <= k < |x| ==> x[k] != '&'
    requires !StartsWith(x, ZOOM_IN)
    ensures ZoomOut(x) == x
  {
    ZoomPatterns();
    SegmentUnchanged(x, ZOOM_IN, ZOOM_OUT);
  }

  lemma PrintsecKept() ensures ZoomOut(PRINTSEC) == PRINTSEC {
    assert PRINTSEC[1] != ZOOM_IN[1];
    ParameterKept(PRINTSEC);
  }

  lemma ImgKept() ensures ZoomOut(IMG) == IMG {
    ParameterKept(IMG);
  }

  lemma ZoomOutKept() ensures ZoomOut(ZOOM_OUT) == ZOOM_OUT {
    ZoomPatterns();
    ParameterKept(ZOOM_OUT);
  }

  lemma EdgeKept() ensures ZoomOut(EDGE_CURL) == EDGE_CURL {
    assert EDGE_CURL[1] != ZOOM_IN[1];
    ParameterKept(EDGE_CURL);
  }

  lemma SourceKept() ensures ZoomOut(SOURCE) == SOURCE {
    assert SOURCE[1] != ZOOM_IN[1];
    ParameterKept(SOURCE);
  }

  /** Two pieces the zoom rewrite keeps, the second opening a parameter,
      are kept together. */
  lemma KeptConcat(a: string, b: string)
    requires ZoomOut(a) == a && ZoomOut(b) == b
    requires b != [] && b[0] == '&'
    ensures ZoomOut(a + b) == a + b
  {
    ZoomPatterns();
    ReplaceSplitsAtHead(a, b, ZOOM_IN, ZOOM_OUT);
  }

  /** The fixed tail of the fallback URL contains no "&zoom=1". */
  lemma FallbackSuffixUnchanged()
    ensures ZoomOut(FALLBACK_SUFFIX) == FALLBACK_SUFFIX
  {
    PrintsecKept();
    ImgKept();
    ZoomOutKept();
    EdgeKept();
    SourceKept();
    KeptConcat(PRINTSEC, IMG);
    KeptConcat(PRINTSEC + IMG, ZOOM_OUT);
    KeptConcat(PRINTSEC + IMG + ZOOM_OUT, EDGE_CURL);
    KeptConcat(PRINTSEC + IMG + ZOOM_OUT + EDGE_CURL, SOURCE);
  }

  /** The fixed head of the fallback URL has no '&', so the rewrite passes
      over it. */
  lemma FallbackPrefixPlain(rest: string)
    ensures ZoomOut(FALLBACK_PREFIX + rest) == FALLBACK_PREFIX + ZoomOut(rest)
  {
    ZoomPatterns();
    assert forall k :: 0 <= k < |FALLBACK_PREFIX| ==> FALLBACK_PREFIX[k] != '&';
    ReplaceAfterPlainPrefix(FALLBACK_PREFIX, rest, ZOOM_IN, ZOOM_OUT);
  }

  /** The zoom rewrite of a fallback URL touches only the id spliced into it. */
  lemma FallbackZoomOut(bookId: string)
    ensures ZoomOut(FallbackCoverUrl(bookId)) == FALLBACK_PREFIX + ZoomOut(bookId) + FALLBACK_SUFFIX
  {
    ZoomPatterns();
    assert FallbackCoverUrl(bookId) == FALLBACK_PREFIX + (bookId + FALLBACK_SUFFIX);
    FallbackPrefixPlain(bookId + FALLBACK_SUFFIX);
    assert FALLBACK_SUFFIX[0] == PRINTSEC[0];
    ReplaceSplitsAtHead(bookId, FALLBACK_SUFFIX, ZOOM_IN, ZOOM_OUT);
    FallbackSuffixUnchanged();
  }

  // ---------------------------------------------------------------------
  // The edge rewrite

  const EDGE_HEAD := "&edge="
  const EDGE_TAIL := "curl"

  lemma EdgeCurlHeadUnique()
    ensures forall k :: 1 <= k < |EDGE_CURL| ==> EDGE_CURL[k] != EDGE_CURL[0]
  {
  }

  lemma EdgeSpliced()
    ensures EDGE_HEAD + EDGE_TAIL == EDGE_CURL
  {
  }

  /** The text in front of the deleted match has no complete match. */
  lemma EdgeHeadKept()
    ensures StripEdge(EDGE_HEAD) == EDGE_HEAD
  {
    assert !StartsWith(EDGE_HEAD, EDGE_CURL);
    SegmentUnchanged(EDGE_HEAD, EDGE_CURL, "");
  }

  /** The match is deleted and the text after it has no '&'. */
  lemma EdgeMatchDeleted()
    ensures StripEdge(EDGE_CURL + EDGE_TAIL) == EDGE_TAIL
  {
    assert (EDGE_CURL + EDGE_TAIL)[..|EDGE_CURL|] == EDGE_CURL;
    assert (EDGE_CURL + EDGE_TAIL)[|EDGE_CURL|..] == EDGE_TAIL;
    ReplaceAfterPlainPrefix(EDGE_TAIL, [], EDGE_CURL, "");
    assert EDGE_TAIL + [] == EDGE_TAIL;
  }

  /** One pass of deletion can splice a new "&edge=curl" together out of
      the text around a deleted one, so the rewrite does not promise that
      none remains. */
  lemma StripEdgeCanLeaveOne()
    ensures StripEdge(EDGE_HEAD + EDGE_CURL + EDGE_TAIL) == EDGE_CURL
    ensures Contains(StripEdge(EDGE_HEAD + EDGE_CURL + EDGE_TAIL), EDGE_CURL)
  {
    EdgeCurlHeadUnique();
    assert EDGE_HEAD + EDGE_CURL + EDGE_TAIL == EDGE_HEAD + (EDGE_CURL + EDGE_TAIL);
    ReplaceSplitsAtHead(EDGE_HEAD, EDGE_CURL + EDGE_TAIL, EDGE_CURL, "");
    EdgeHeadKept();
    EdgeMatchDeleted();
    EdgeSpliced();
    assert OccursAt(EDGE_CURL, EDGE_CURL, 0);
  }

  // ---------------------------------------------------------------------
  // Cover selection (get_high_res_cover)

  /** The rewrite applied to the chosen link: drop "&edge=curl" (the curled
      page effect), then ask for zoom level 0 instead of 1. */
  function RewriteCoverUrl(url: string): (r: string)
    ensures !Contains(r, ZOOM_IN)
    ensures |r| <= |url|
    ensures |r| < |url| <==> Contains(url, EDGE_CURL)
  {
    DeleteShortensIff(url, EDGE_CURL);
    ZoomOutPointwise(StripEdge(url));
    ZoomOutClears(StripEdge(url));
    ZoomOut(StripEdge(url))
  }

  /** The rewritten link under the first of `sizes` present in `links`, or
      "" when none is. */
  function FirstCover(links: map<string, string>, sizes: seq<string>): (url: string)
    ensures !Contains(url, ZOOM_IN)
    decreases |sizes|
  {
    if sizes == [] then ""
    else if sizes[0] in links then RewriteCoverUrl(links[sizes[0]])
    else FirstCover(links, sizes[1..])
  }

  /** `get_high_res_cover(image_links)`. */
  function HighResCover(imageLinks: map<string, string>): (url: string)
    ensures imageLinks == map[] ==> url == ""
    ensures !Contains(url, ZOOM_IN)
  {
    if |imageLinks| == 0 then "" else FirstCover(imageLinks, SIZE_PRIORITY)
  }

  lemma {:induction false} FirstCoverPicksFirst(links: map<string, string>, sizes: seq<string>, j: int)
    requires 0 <= j < |sizes| && sizes[j] in links
    requires forall i :: 0 <= i < j ==> sizes[i] !in links
    ensures FirstCover(links, sizes) == RewriteCoverUrl(links[sizes[j]])
  {
    if j > 0 {
      FirstCoverPicksFirst(links, sizes[1..], j - 1);
    }
  }

  /** The cover comes from the largest size present: the link under the
      first key of SIZE_PRIORITY in the map, never from a smaller one while
      a larger one exists. */
  lemma HighResCoverPicksLargest(imageLinks: map<string, string>, j: int)
    requires 0 <= j < |SIZE_PRIORITY| && SIZE_PRIORITY[j] in imageLinks
    requires forall i :: 0 <= i < j ==> SIZE_PRIORITY[i] !in imageLinks
    ensures HighResCover(imageLinks) == RewriteCoverUrl(imageLinks[SIZE_PRIORITY[j]])
  {
    assert |imageLinks| != 0;
    FirstCoverPicksFirst(imageLinks, SIZE_PRIORITY, j);
  }

  lemma {:induction false} FirstCoverNoneFound(links: map<string, string>, sizes: seq<string>)
    requires forall i :: 0 <= i < |sizes| ==> sizes[i] !in links
    ensures FirstCover(links, sizes) == ""
  {
    if sizes != [] {
      FirstCoverNoneFound(links, sizes[1..]);
    }
  }

  /** With none of the five keys present there is no cover. */
  lemma HighResCoverNoneFound(imageLinks: map<string, string>)
    requires forall i :: 0 <= i < |SIZE_PRIORITY| ==> SIZE_PRIORITY[i] !in imageLinks
    ensures HighResCover(imageLinks) == ""
  {
    FirstCoverNoneFound(imageLinks, SIZE_PRIORITY);
  }

  /** The second zoom rewrite in search_book_metadata changes nothing in a
      cover get_high_res_cover produced. */
  lemma CoverZoomIdempotent(imageLinks: map<string, string>)
    ensures ZoomOut(HighResCover(imageLinks)) == HighResCover(imageLinks)
  {
    ReplaceAbsent(HighResCover(imageLinks), ZOOM_IN, ZOOM_OUT);
  }

  // ---------------------------------------------------------------------
  // Thumbnail derivation (search_book_metadata, after the response)

  /** The thumbnail search_book_metadata settles on, stated by outcome: the
      cover when there is one; else, when the volume has an id, the fallback
      URL around that id (with the zoom rewrite applied to the id); else "". */
  function ThumbnailFor(imageLinks: map<string, string>, bookId: Option<string>): (thumbnail: string)
    ensures !Contains(thumbnail, ZOOM_IN)
    ensures thumbnail == "" <==> HighResCover(imageLinks) == "" && !Truthy(bookId)
  {
    var cover := HighResCover(imageLinks);
    if cover != "" then cover
    else if Truthy(bookId) then
      FallbackZoomOut(bookId.value);
      ZoomOutClears(FallbackCoverUrl(bookId.value));
      FALLBACK_PREFIX + ZoomOut(bookId.value) + FALLBACK_SUFFIX
    else ""
  }

  /** With no cover and an id free of "&zoom=1", the thumbnail is exactly
      the fallback URL around that id. */
  lemma FallbackThumbnailExact(imageLinks: map<string, string>, bookId: string)
    requires HighResCover(imageLinks) == "" && bookId != ""
    requires !Contains(bookId, ZOOM_IN)
    ensures ThumbnailFor(imageLinks, Some(bookId)) == FallbackCoverUrl(bookId)
  {
    ReplaceAbsent(bookId, ZOOM_IN, ZOOM_OUT);
  }

  /** The thumbnail steps of search_book_metadata as the code takes them:
      pick the cover, fall back to the id-based URL, re-apply the zoom
      rewrite to whatever is not empty. */
  method DeriveThumbnail(imageLinks: map<string, string>, bookId: Option<string>) returns (thumbnail: string)
    ensures thumbnail == ThumbnailFor(imageLinks, bookId)
  {
    thumbnail := HighResCover(imageLinks);
    if thumbnail == "" && Truthy(bookId) {
      thumbnail := FallbackCoverUrl(bookId.value);
      FallbackZoomOut(bookId.value);
    } else {
      CoverZoomIdempotent(imageLinks);
    }
    if thumbnail != "" {
      thumbnail := ZoomOut(thumbnail);
    }
  }

  // ---------------------------------------------------------------------
  // Metadata extraction

  /** The decoded fields of a volume's `volumeInfo`; None is a missing key. */
  datatype VolumeInfo = VolumeInfo(
    title: Option<string>,
    authors: Option<seq<string>>,
    pageCount: Option<int>,
    categories: Option<seq<string>>,
    previewLink: Option<string>,
    imageLinks: Option<map<string, string>>)

  /** One entry of the response's `items`. */
  datatype Volume = Volume(id: Option<string>, volumeInfo: Option<VolumeInfo>)

  /** The decoded response body; `items` is None when the key is missing. */
  datatype VolumesResponse = VolumesResponse(items: Option<seq<Volume>>)

  /** The dictionary search_book_metadata returns. */
  datatype BookMetadata = BookMetadata(
    title: string,
    authors: seq<string>,
    pageCount: Option<int>,
    categories: seq<string>,
    previewLink: string,
    thumbnail: string)

  /** `volume_info.get(...)` on a volume without `volumeInfo` sees `{}`. */
  const NO_VOLUME_INFO := VolumeInfo(None, None, None, None, None, None)

  /** The metadata read from one volume, with the documented defaults. */
  function MetadataOf(volume: Volume): (m: BookMetadata)
    ensures m.thumbnail == ThumbnailFor(volume.volumeInfo.GetOr(NO_VOLUME_INFO).imageLinks.GetOr(map[]), volume.id)
    ensures !Contains(m.thumbnail, ZOOM_IN)
  {
    var info := volume.volumeInfo.GetOr(NO_VOLUME_INFO);
    BookMetadata(
      info.title.GetOr(UNKNOWN_TITLE),
      info.authors.GetOr([]),
      info.pageCount,
      info.categories.GetOr([]),
      info.previewLink.GetOr(""),
      ThumbnailFor(info.imageLinks.GetOr(map[]), volume.id))
  }

  /** Missing fields take their defaults and the page count stays absent. */
  lemma MetadataDefaults(volume: Volume)
    ensures var info := volume.volumeInfo.GetOr(NO_VOLUME_INFO);
      && (info.title.None? ==> MetadataOf(volume).title == UNKNOWN_TITLE)
      && (info.authors.None? ==> MetadataOf(volume).authors == [])
      && (info.pageCount.None? ==> MetadataOf(volume).pageCount.None?)
      && (info.categories.None? ==> MetadataOf(volume).categories == [])
      && (info.previewLink.None? ==> MetadataOf(volume).previewLink == "")
      && (info.imageLinks.None? ==>
            MetadataOf(volume).thumbnail == ThumbnailFor(map[], volume.id))
  {
  }

  /** Fields the volume has are carried over as they are; the page count
      is passed through. */
  lemma MetadataCarriesPresentFields(volume: Volume)
    ensures var info := volume.volumeInfo.GetOr(NO_VOLUME_INFO);
      && (info.title.Some? ==> MetadataOf(volume).title == info.title.value)
      && (info.authors.Some? ==> MetadataOf(volume).authors == info.authors.value)
      && MetadataOf(volume).pageCount == info.pageCount
      && (info.categories.Some? ==> MetadataOf(volume).categories == info.categories.value)
      && (info.previewLink.Some? ==> MetadataOf(volume).previewLink == info.previewLink.value)
      && (info.imageLinks.Some? ==>
            MetadataOf(volume).thumbnail == ThumbnailFor(info.imageLinks.value, volume.id))
  {
  }

  /** The part of search_book_metadata after the response is decoded. */
  function ExtractMetadata(data: VolumesResponse): (m: Option<BookMetadata>)
    ensures m.None? <==> data.items.None? || data.items.value == []
    ensures m.Some? ==> !Contains(m.value.thumbnail, ZOOM_IN)
  {
    if data.items.None? || |data.items.value| == 0 then None
    else Some(MetadataOf(data.items.value[0]))
  }

  /** Only the first volume of the response matters. */
  lemma ExtractMetadataUsesFirstOnly(a: VolumesResponse, b: VolumesResponse)
    requires a.items.Some? && b.items.Some? && a.items.value != [] && b.items.value != []
    requires a.items.value[0] == b.items.value[0]
    ensures ExtractMetadata(a) == ExtractMetadata(b)
  {
  }

  /** `search_book_metadata(query)`: the API key read from the environment
      and the outcome of the HTTP request (a failure standing for any
      exception) are inputs. A missing or empty key, a failed request and a
      response without items all give None. */
  function SearchBookMetadata(apiKey: Option<string>, response: Result<VolumesResponse, string>): (m: Option<BookMetadata>)
    ensures !Truthy(apiKey) ==> m.None?
    ensures response.Failure? ==> m.None?
    ensures m.Some? ==> response.Success? && response.value.items.Some? && response.value.items.value != []
    ensures Truthy(apiKey) && response.Success? ==> m == ExtractMetadata(response.value)
    ensures m.Some? ==> !Contains(m.value.thumbnail, ZOOM_IN)
  {
    if !Truthy(apiKey) then None
    else match response
      case Failure(_) => None
      case Success(data) => ExtractMetadata(data)
  }
}
