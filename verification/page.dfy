/** The search page of `frontend/src/app/page.tsx`: the form's state and
    what a search does to it, which panels the page shows for a state, and
    the badge class chosen for the analysis' colour name. The HTTP request
    is an outcome handed to the model. */
module Page {
  import opened Wrappers
  import opened Models
  import opened Strings

  // ---------------------------------------------------------------------
  // Badge colour

  /** The five colour names the page knows and their class lists. */
  const BADGE_CLASSES: map<string, string> := map[
    "MERAH" := "bg-red-600 hover:bg-red-700",
    "UNGU" := "bg-purple-600 hover:bg-purple-700",
    "BIRU" := "bg-blue-600 hover:bg-blue-700",
    "HIJAU" := "bg-green-600 hover:bg-green-700",
    "KUNING" := "bg-yellow-500 hover:bg-yellow-600 text-black"]

  const GRAY_BADGE := "bg-gray-500"

  /** JavaScript's `toUpperCase` on one character, as far as it can yield
      an upper-case ASCII letter: a-z, dotless i and long s. */
  function UpperChar(c: char): char {
    if 'a' <= c <= 'z' then (c as int - 32) as char
    else if c == 'ı' then 'I'
    else if c == 'ſ' then 'S'
    else c
  }

  function ToUpper(s: string): string {
    seq(|s|, i requires 0 <= i < |s| => UpperChar(s[i]))
  }

  /** `getBadgeColor(color)`: the class list of the colour name read in
      upper case, or gray for a name the page does not know. */
  function BadgeColor(color: string): (cls: string)
    ensures cls == GRAY_BADGE <==> ToUpper(color) !in BADGE_CLASSES
    ensures cls != GRAY_BADGE ==> cls in BADGE_CLASSES.Values
  {
    var key := ToUpper(color);
    if key in BADGE_CLASSES then BADGE_CLASSES[key] else GRAY_BADGE
  }

  /** A character of the colour name that stands for the upper-case letter
      `k` once upper-cased. */
  predicate CharMatches(c: char, k: char) {
    c == k || c as int == k as int + 32 || (k == 'I' && c == 'ı') || (k == 'S' && c == 'ſ')
  }

  /** `color` spells `key` ignoring case. */
  predicate MatchesIgnoringCase(color: string, key: string) {
    |color| == |key| && forall i :: 0 <= i < |key| ==> CharMatches(color[i], key[i])
  }

  predicate UpperAscii(key: string) {
    forall i :: 0 <= i < |key| ==> 'A' <= key[i] <= 'Z'
  }

  lemma {:induction false} UpperCharMatches(c: char, k: char)
    requires 'A' <= k <= 'Z'
    ensures UpperChar(c) == k <==> CharMatches(c, k)
  {
  }

  lemma {:induction false} ToUpperMatches(color: string, key: string)
    requires UpperAscii(key)
    ensures ToUpper(color) == key <==> MatchesIgnoringCase(color, key)
  {
    if |color| == |key| {
      forall i | 0 <= i < |key| ensures UpperChar(color[i]) == key[i] <==> CharMatches(color[i], key[i]) {
        UpperCharMatches(color[i], key[i]);
      }
      if MatchesIgnoringCase(color, key) {
        assert ToUpper(color) == key;
      }
    }
  }

  lemma KeysUpperAscii()
    ensures forall key :: key in BADGE_CLASSES ==> UpperAscii(key)
  {
    assert UpperAscii("MERAH") && UpperAscii("UNGU") && UpperAscii("BIRU");
    assert UpperAscii("HIJAU") && UpperAscii("KUNING");
  }

  /** No two colours share a class list. */
  lemma ClassesDistinct(k1: string, k2: string)
    ensures k1 in BADGE_CLASSES && k2 in BADGE_CLASSES && BADGE_CLASSES[k1] == BADGE_CLASSES[k2] ==> k1 == k2
  {
    if k1 in BADGE_CLASSES && k2 in BADGE_CLASSES {
      assert BADGE_CLASSES[k1][3] == BADGE_CLASSES[k2][3] ==> k1 == k2;
    }
  }

  /** A known colour's class list is chosen exactly for the spellings of
      its name that differ from it only in case. */
  lemma BadgeColorIgnoresCase(color: string, key: string)
    requires key in BADGE_CLASSES
    ensures BadgeColor(color) == BADGE_CLASSES[key] <==> MatchesIgnoringCase(color, key)
  {
    KeysUpperAscii();
    ToUpperMatches(color, key);
    ClassesDistinct(ToUpper(color), key);
  }

  /** Gray is chosen exactly when the name spells none of the five
      colours in any case. */
  lemma BadgeColorDefault(color: string)
    ensures BadgeColor(color) == GRAY_BADGE <==>
      forall key :: key in BADGE_CLASSES ==> !MatchesIgnoringCase(color, key)
  {
    KeysUpperAscii();
    forall key | key in BADGE_CLASSES ensures ToUpper(color) == key <==> MatchesIgnoringCase(color, key) {
      ToUpperMatches(color, key);
    }
  }

  /** The backend's fallback colour "ABU" shows as gray. */
  lemma UnknownColourIsGray()
    ensures BadgeColor("ABU") == GRAY_BADGE
    ensures BadgeColor("abu") == GRAY_BADGE
  {
    assert ToUpper("ABU") == "ABU";
    assert ToUpper("abu") == "ABU";
  }

  // ---------------------------------------------------------------------
  // What the page shows

  /** The error banner is shown for a non-empty error text. */
  predicate ErrorVisible(error: string) {
    error != ""
  }

  /** The loading skeleton is shown while a search is in flight. */
  predicate SkeletonVisible(loading: bool) {
    loading
  }

  /** The result card is shown when nothing is loading and there is a result. */
  predicate ResultVisible(loading: bool, result: Option<BookResult>) {
    !loading && result.Some?
  }

  /** The states a search leaves the page in: nothing is shown beside the
      skeleton while loading, and an error is never shown with a result. */
  predicate ViewConsistent(loading: bool, error: string, result: Option<BookResult>) {
    (loading ==> error == "" && result.None?) && (error != "" ==> result.None?)
  }

  /** In such a state at most one of the three panels is shown. */
  lemma PanelsExclusive(loading: bool, error: string, result: Option<BookResult>)
    requires ViewConsistent(loading, error, result)
    ensures !(ErrorVisible(error) && SkeletonVisible(loading))
    ensures !(ErrorVisible(error) && ResultVisible(loading, result))
    ensures !(SkeletonVisible(loading) && ResultVisible(loading, result))
  {
  }

  // ---------------------------------------------------------------------
  // The search

  /** What the POST to `/api/analyze` came back with: the body of a
      successful response, or a failure with the `detail` field of its body
      when there was one. */
  datatype Response = Ok(body: BookResult) | Failed(detail: Option<string>)

  const DEFAULT_ERROR := "Gagal menganalisis buku. Pastikan Backend menyala."

  /** `err.response?.data?.detail || DEFAULT_ERROR`: the server's detail
      unless it is missing or empty; never empty, so a failure always shows
      the banner. */
  function ErrorMessage(detail: Option<string>): (msg: string)
    ensures msg != ""
    ensures Truthy(detail) ==> msg == detail.value
    ensures !Truthy(detail) ==> msg == DEFAULT_ERROR
  {
    if Truthy(detail) then detail.value else DEFAULT_ERROR
  }

  /** The page's state: the query typed, whether a search is in flight, the
      last result and the last error text. */
  class SearchForm {
    var query: string
    var loading: bool
    var result: Option<BookResult>
    var error: string

    ghost predicate Valid()
      reads this
    {
      ViewConsistent(loading, error, result)
    }

    constructor()
      ensures query == "" && !loading && result.None? && error == ""
      ensures Valid()
    {
      query := "";
      loading := false;
      result := None;
      error := "";
    }

    /** Typing into the search box. */
    method SetQuery(q: string)
      modifies this
      ensures query == q
      ensures loading == old(loading) && result == old(result) && error == old(error)
      ensures old(Valid()) ==> Valid()
    {
      query := q;
    }

    /** The synchronous part of `handleSearch`: a query that trims to
        nothing does nothing; otherwise the page enters the loading state
        and the untrimmed query is the title sent. */
    method Submit() returns (request: Option<string>)
      modifies this
      ensures query == old(query)
      ensures Strip(old(query), JsIsSpace) == [] ==>
        request.None? && loading == old(loading) && result == old(result) && error == old(error)
      ensures Strip(old(query), JsIsSpace) != [] ==>
        request == Some(old(query)) && loading && error == "" && result.None?
      ensures request.Some? ==>
        Valid() && SkeletonVisible(loading) && !ErrorVisible(error) && !ResultVisible(loading, result)
    {
      if Strip(query, JsIsSpace) == [] {
        return None;
      }
      loading := true;
      error := "";
      result := None;
      request := Some(query);
    }

    /** The part of `handleSearch` after the request returns: the body
        becomes the result, or the error text is set; either way loading
        ends. */
    method Complete(response: Response)
      requires Valid() && loading
      modifies this
      ensures query == old(query) && !loading
      ensures response.Ok? ==> result == Some(response.body) && error == ""
      ensures response.Failed? ==> result.None? && error == ErrorMessage(response.detail)
      ensures Valid()
      ensures ResultVisible(loading, result) <==> response.Ok?
      ensures ErrorVisible(error) <==> response.Failed?
      ensures !SkeletonVisible(loading)
    {
      match response {
        case Ok(body) =>
          result := Some(body);
        case Failed(detail) =>
          error := ErrorMessage(detail);
      }
      loading := false;
    }

    /** `handleSearch` run to completion, with `response` the answer the
        request gets if one is sent. */
    method HandleSearch(response: Response) returns (request: Option<string>)
      modifies this
      ensures query == old(query)
      ensures Strip(old(query), JsIsSpace) == [] ==>
        request.None? && loading == old(loading) && result == old(result) && error == old(error)
      ensures Strip(old(query), JsIsSpace) != [] ==> request == Some(old(query)) && !loading
      ensures request.Some? && response.Ok? ==> result == Some(response.body) && error == ""
      ensures request.Some? && response.Failed? ==> result.None? && error == ErrorMessage(response.detail)
      ensures request.Some? ==> Valid()
    {
      request := Submit();
      if request.Some? {
        Complete(response);
      }
    }
  }
}
