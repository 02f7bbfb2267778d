/** What `backend/app/services/ai_engine.py` does around its call to the
    language model: the API-key guard, the three-part message it sends, the
    clean-up of the reply before it is parsed as JSON, and the fixed record
    it returns when anything in the call, the clean-up or the parse fails.
    The model and `json.loads` (with the record built from its result) are
    parameters: partial functions whose failures are `Failure` values. */
module AiEngine {
  import opened Wrappers
  import opened Models
  import opened Strings

  const MISSING_KEY_ERROR := "GOOGLE_API_KEY tidak ditemukan di .env"
  const SCREENSHOT_WARNING := "[PERINGATAN: Screenshot tidak tersedia. Analisis hanya berdasarkan Metadata.]"
  const PNG_DATA_PREFIX := "data:image/png;base64,"
  const UNKNOWN_PAGES := "Tidak diketahui"

  const FENCE := "```"
  const JSON_FENCE := "```json"

  const FALLBACK_LEVEL := "Tidak Teridentifikasi"
  const FALLBACK_REASON_PREFIX := "Gagal analisis AI: "
  const FALLBACK_ADVICE := "-"
  const FALLBACK_BADGE := "ABU"

  /** The `page_count` entry of the metadata dictionary: no such key, the
      key holding None, or the key holding a number. */
  datatype PageCountEntry = NoPageCountKey | NullPageCount | PageCount(n: int)

  /** The metadata dictionary the analysis reads; `categories` is None when
      the key is missing. */
  datatype Metadata = Metadata(title: string, pageCount: PageCountEntry, categories: Option<seq<string>>)

  /** One item of the message content list. */
  datatype ContentPart = TextPart(text: string) | ImageUrlPart(url: string)

  // ---------------------------------------------------------------------
  // The metadata text

  function DigitChar(d: nat): char
    requires d < 10
  {
    ('0' as int + d) as char
  }

  /** Decimal digits of a natural number, most significant first. */
  function NatToString(n: nat): (s: string)
    ensures s != [] && forall i :: 0 <= i < |s| ==> '0' <= s[i] <= '9'
    ensures s[0] == '0' ==> n == 0
    ensures n == 0 ==> s == "0"
    ensures |s| > 1 ==> s[0] != '0'
    decreases n
  {
    if n < 10 then [DigitChar(n)] else NatToString(n / 10) + [DigitChar(n % 10)]
  }

  /** The number a string of decimal digits denotes. */
  function DigitsValue(s: string): int
    decreases |s|
  {
    if s == [] then 0 else DigitsValue(s[..|s| - 1]) * 10 + (s[|s| - 1] as int - '0' as int)
  }

  lemma {:induction false} NatToStringRoundTrip(n: nat)
    ensures DigitsValue(NatToString(n)) == n
  {
    if n >= 10 {
      NatToStringRoundTrip(n / 10);
      var s := NatToString(n);
      assert s[..|s| - 1] == NatToString(n / 10);
    }
  }

  /** Python's `str(n)` for an integer: an optional minus sign, then digits
      without leading zeros that read back as the magnitude. */
  function IntToString(n: int): (s: string)
    ensures |s| >= (if n < 0 then 2 else 1) && (s[0] == '-' <==> n < 0)
    ensures s[if n < 0 then 1 else 0] == '0' ==> s == "0"
    ensures forall i :: (if n < 0 then 1 else 0) <= i < |s| ==> '0' <= s[i] <= '9'
    ensures DigitsValue(s[if n < 0 then 1 else 0..]) == if n < 0 then -n else n
  {
    if n < 0 then
      NatToStringRoundTrip(-n);
      assert ("-" + NatToString(-n))[1..] == NatToString(-n);
      "-" + NatToString(-n)
    else
      NatToStringRoundTrip(n);
      NatToString(n)
  }

  /** What `{metadata.get('page_count', 'Tidak diketahui')}` prints. The
      fallback text appears exactly when the key is missing. */
  function PageCountText(p: PageCountEntry): (text: string)
    ensures text == UNKNOWN_PAGES <==> p == NoPageCountKey
  {
    match p
    case NoPageCountKey => UNKNOWN_PAGES
    case NullPageCount => "None"
    case PageCount(n) =>
      var s := IntToString(n);
      assert s[0] != UNKNOWN_PAGES[0];
      s
  }

  /** Python's `repr` of a string that needs no escaping. */
  function QuotedRepr(s: string): string {
    "'" + s + "'"
  }

  function JoinReprs(items: seq<string>): string
    decreases |items|
  {
    if items == [] then ""
    else if |items| == 1 then QuotedRepr(items[0])
    else QuotedRepr(items[0]) + ", " + JoinReprs(items[1..])
  }

  /** What `{metadata.get('categories', [])}` prints: a missing key prints
      as an empty list, and "[]" is printed for nothing else. */
  function CategoriesText(categories: Option<seq<string>>): (text: string)
    ensures text == "[]" <==> categories.None? || categories.value == []
  {
    var items := categories.GetOr([]);
    var text := "[" + JoinReprs(items) + "]";
    assert items != [] ==> text[1] == '\'';
    text
  }

  const METADATA_HEAD := "\n    Data Buku:\n    - Judul: "
  const PAGES_LABEL := "\n    - Jumlah Halaman: "
  const CATEGORIES_LABEL := "\n    - Kategori: "
  const METADATA_TAIL := "\n    "

  /** The `metadata_info` text. */
  function MetadataInfo(m: Metadata): string {
    METADATA_HEAD + m.title + PAGES_LABEL + PageCountText(m.pageCount)
      + CATEGORIES_LABEL + CategoriesText(m.categories) + METADATA_TAIL
  }

  // ---------------------------------------------------------------------
  // The message sent to the model

  /** `content_message`, built as the code builds it: the prompt and the
      metadata text, then one appended item that carries the screenshot as a
      PNG data URL or, without a screenshot, the fixed warning. */
  method BuildContentMessage(systemPrompt: string, metadataInfo: string, screenshot: string)
    returns (content: seq<ContentPart>)
    ensures |content| == 3
    ensures content[0] == TextPart(systemPrompt) && content[1] == TextPart(metadataInfo)
    ensures screenshot != "" ==> content[2] == ImageUrlPart(PNG_DATA_PREFIX + screenshot)
    ensures screenshot == "" ==> content[2] == TextPart(SCREENSHOT_WARNING)
  {
    content := [TextPart(systemPrompt), TextPart(metadataInfo)];
    if screenshot != "" {
      content := content + [ImageUrlPart(PNG_DATA_PREFIX + screenshot)];
    } else {
      content := content + [TextPart(SCREENSHOT_WARNING)];
    }
  }

  // ---------------------------------------------------------------------
  // The reply clean-up

  /** `s.replace("```", "")` */
  function DeleteFences(s: string): string {
    ReplaceAll(s, FENCE, "")
  }

  /** A non-empty string that does not open with a backtick keeps its first
      character through the fence deletion. */
  lemma DeleteFencesHead(s: string)
    ensures s != [] && s[0] != '`' ==> DeleteFences(s) != [] && DeleteFences(s)[0] == s[0]
  {
    if s != [] && s[0] != '`' {
      assert !StartsWith(s, FENCE) by {
        StartsWithAt(s, FENCE, 0);
      }
    }
  }

  lemma {:induction false} DeleteFencesNoFenceAt(s: string, i: int)
    ensures !OccursAt(DeleteFences(s), FENCE, i)
  {
    var d := DeleteFences(s);
    if s == [] || i < 0 {
    } else if StartsWith(s, FENCE) {
      assert d == DeleteFences(s[3..]);
      DeleteFencesNoFenceAt(s[3..], i);
    } else {
      var rest := DeleteFences(s[1..]);
      assert d == [s[0]] + rest;
      if i > 0 {
        DeleteFencesNoFenceAt(s[1..], i - 1);
        if i + 3 <= |d| {
          assert d[i..i + 3] == rest[i - 1..i + 2];
        }
      } else if s[0] != '`' {
        OccursAtChar(d, FENCE, 0, 0);
      } else if |s| == 1 {
        assert |d| == 1 + |DeleteFences([])|;
      } else if s[1] != '`' {
        DeleteFencesHead(s[1..]);
        OccursAtChar(d, FENCE, 0, 1);
      } else {
        // s opens with exactly two backticks
        assert !StartsWith(s[1..], FENCE) by {
          StartsWithAt(s[1..], FENCE, 1);
          if |s| >= 3 {
            assert s[..3] == [s[0], s[1], s[2]];
          }
        }
        assert rest == [s[1]] + DeleteFences(s[2..]);
        if |s| == 2 {
          assert |d| == 2 + |DeleteFences([])|;
        } else {
          assert s[..3] == [s[0], s[1], s[2]];
          DeleteFencesHead(s[2..]);
          OccursAtChar(d, FENCE, 0, 2);
        }
      }
    }
  }

  /** Deleting "```" leaves none behind: a run of backticks loses its
      length rounded down to a multiple of three, so at most two remain
      between any two other characters. */
  lemma DeleteFencesClears(s: string)
    ensures !Contains(DeleteFences(s), FENCE)
  {
    forall i ensures !OccursAt(DeleteFences(s), FENCE, i) {
      DeleteFencesNoFenceAt(s, i);
    }
  }

  /** `response.content.replace("```json", "").replace("```", "").strip()`:
      no fence (so no "```json" either) and no whitespace at either end. */
  function CleanReply(reply: string): (clean: string)
    ensures !Contains(clean, FENCE) && !Contains(clean, JSON_FENCE)
    ensures clean == [] || (!PyIsSpace(clean[0]) && !PyIsSpace(clean[|clean| - 1]))
  {
    var noFences := DeleteFences(ReplaceAll(reply, JSON_FENCE, ""));
    DeleteFencesClears(ReplaceAll(reply, JSON_FENCE, ""));
    var clean := Strip(noFences, PyIsSpace);
    ContainsPrefix(clean, JSON_FENCE, 3);
    assert JSON_FENCE[..3] == FENCE;
    clean
  }

  /** A pattern that opens with a backtick is absent from a string
      without backticks. */
  lemma NoBacktickNoFence(s: string, pat: string)
    requires forall k :: 0 <= k < |s| ==> s[k] != '`'
    requires pat != [] && pat[0] == '`'
    ensures !Contains(s, pat)
  {
    forall i ensures !OccursAt(s, pat, i) {
      OccursAtChar(s, pat, i, 0);
    }
  }

  /** The clean-up removes nothing else: a reply without backticks and
      without whitespace at either end comes back unchanged. */
  lemma CleanReplyKeepsPlainReply(reply: string)
    requires forall k :: 0 <= k < |reply| ==> reply[k] != '`'
    requires reply == [] || (!PyIsSpace(reply[0]) && !PyIsSpace(reply[|reply| - 1]))
    ensures CleanReply(reply) == reply
  {
    NoBacktickNoFence(reply, JSON_FENCE);
    ReplaceAbsent(reply, JSON_FENCE, "");
    NoBacktickNoFence(reply, FENCE);
    ReplaceAbsent(reply, FENCE, "");
    StripKeepsTrimmed(reply, PyIsSpace);
  }

  /** Closing "```" after text without backticks is deleted, text kept. */
  lemma DeleteClosingFence(b: string)
    requires forall k :: 0 <= k < |b| ==> b[k] != '`'
    ensures DeleteFences(b + FENCE) == b
  {
    ReplaceAfterPlainPrefix(b, FENCE, FENCE, "");
    assert StartsWith(FENCE, FENCE);
    assert FENCE[|FENCE|..] == [];
    assert b + "" == b;
  }

  /** A reply fenced as "```json ... ```" is unwrapped to its stripped
      body. */
  lemma CleanReplyUnwrapsJsonFence(b: string)
    requires forall k :: 0 <= k < |b| ==> b[k] != '`'
    ensures CleanReply(JSON_FENCE + b + FENCE) == Strip(b, PyIsSpace)
  {
    var s := JSON_FENCE + b + FENCE;
    assert s[..|JSON_FENCE|] == JSON_FENCE;
    assert s[|JSON_FENCE|..] == b + FENCE;
    ReplaceAfterPlainPrefix(b, FENCE, JSON_FENCE, "");
    ReplaceAbsent(FENCE, JSON_FENCE, "");
    assert ReplaceAll(s, JSON_FENCE, "") == b + FENCE;
    DeleteClosingFence(b);
  }

  /** "```json" can open a "```"-fenced reply only where the body opens
      with "json". */
  lemma JsonFenceAtStart(b: string)
    ensures OccursAt(FENCE + b + FENCE, JSON_FENCE, 0) ==> StartsWith(b, "json")
  {
    var s := FENCE + b + FENCE;
    if OccursAt(s, JSON_FENCE, 0) {
      forall k | 3 <= k < 7 ensures s[k] == JSON_FENCE[k] {
        OccursAtChar(s, JSON_FENCE, 0, k);
      }
      assert |b| >= 4 by {
        OccursAtChar(s, JSON_FENCE, 0, 3 + |b|);
      }
      assert b[..4] == s[3..7];
    }
  }

  /** A "```"-fenced body without backticks that does not open with
      "json" holds no "```json" once fenced. */
  lemma FencedHasNoJsonFence(b: string)
    requires forall k :: 0 <= k < |b| ==> b[k] != '`'
    requires !StartsWith(b, "json")
    ensures !Contains(FENCE + b + FENCE, JSON_FENCE)
  {
    var s := FENCE + b + FENCE;
    JsonFenceAtStart(b);
    forall i ensures !OccursAt(s, JSON_FENCE, i) {
      OccursAtChar(s, JSON_FENCE, i, 2);
      OccursAtChar(s, JSON_FENCE, i, 3);
    }
  }

  /** A "```"-fenced body that does not open with "json" loses only its
      fences and its edge whitespace. */
  lemma CleanReplyUnwrapsPlainFence(b: string)
    requires forall k :: 0 <= k < |b| ==> b[k] != '`'
    requires !StartsWith(b, "json")
    ensures CleanReply(FENCE + b + FENCE) == Strip(b, PyIsSpace)
  {
    var s := FENCE + b + FENCE;
    FencedHasNoJsonFence(b);
    ReplaceAbsent(s, JSON_FENCE, "");
    assert s[..|FENCE|] == FENCE;
    assert s[|FENCE|..] == b + FENCE;
    DeleteClosingFence(b);
    assert DeleteFences(s) == "" + DeleteFences(b + FENCE);
    assert DeleteFences(ReplaceAll(s, JSON_FENCE, "")) == b;
  }

  /** A reply fenced as "``` ... ```" is unwrapped to its stripped body;
      when the body opens with "json", the first replacement takes that
      word with the opening fence. */
  lemma CleanReplyUnwrapsFence(b: string)
    requires forall k :: 0 <= k < |b| ==> b[k] != '`'
    ensures CleanReply(FENCE + b + FENCE) == Strip(if StartsWith(b, "json") then b[4..] else b, PyIsSpace)
  {
    if StartsWith(b, "json") {
      assert FENCE + b + FENCE == JSON_FENCE + b[4..] + FENCE by {
        assert b == b[..4] + b[4..];
      }
      CleanReplyUnwrapsJsonFence(b[4..]);
    } else {
      CleanReplyUnwrapsPlainFence(b);
    }
  }

  // ---------------------------------------------------------------------
  // The analysis

  /** The record returned when the call, the clean-up or the parse fails. */
  function FallbackAnalysis(error: string): AIAnalysis {
    AIAnalysis(FALLBACK_LEVEL, 0, FALLBACK_REASON_PREFIX + error, FALLBACK_ADVICE, FALLBACK_BADGE)
  }

  /** `analyze_book_with_ai(metadata, screenshot_base64)`. The environment's
      API key, the prompt text, the model and the JSON parse are inputs.
      Besides the result it reports the message handed to the model (None
      when none was built) and the text handed to the parser (None when the
      model call failed). A missing or empty key raises before anything is
      built; otherwise the result is what the parser produced or the
      fallback record carrying the failure's text. */
  method AnalyzeBookWithAi(
    apiKey: Option<string>, metadata: Metadata, screenshot: string, systemPrompt: string,
    llm: seq<ContentPart> -> Result<string, string>, parse: string -> Result<AIAnalysis, string>)
    returns (outcome: Result<AIAnalysis, string>, sent: Option<seq<ContentPart>>, parsed: Option<string>)
    ensures !Truthy(apiKey) <==> outcome == Failure(MISSING_KEY_ERROR)
    ensures !Truthy(apiKey) ==> sent.None? && parsed.None?
    ensures Truthy(apiKey) ==> outcome.Success? && sent.Some?
    ensures sent.Some? ==>
      && |sent.value| == 3
      && sent.value[0] == TextPart(systemPrompt)
      && sent.value[1] == TextPart(MetadataInfo(metadata))
      && sent.value[2] == (if screenshot != "" then ImageUrlPart(PNG_DATA_PREFIX + screenshot)
                           else TextPart(SCREENSHOT_WARNING))
    ensures sent.Some? && llm(sent.value).Failure? ==>
      parsed.None? && outcome == Success(FallbackAnalysis(llm(sent.value).error))
    ensures sent.Some? && llm(sent.value).Success? ==>
      parsed == Some(CleanReply(llm(sent.value).value))
    ensures parsed.Some? && parse(parsed.value).Success? ==> outcome == parse(parsed.value)
    ensures parsed.Some? && parse(parsed.value).Failure? ==>
      outcome == Success(FallbackAnalysis(parse(parsed.value).error))
  {
    if !Truthy(apiKey) {
      return Failure(MISSING_KEY_ERROR), None, None;
    }
    var info := MetadataInfo(metadata);
    var content := BuildContentMessage(systemPrompt, info, screenshot);
    sent := Some(content);
    var response := llm(content);
    if response.Failure? {
      return Success(FallbackAnalysis(response.error)), sent, None;
    }
    var clean := CleanReply(response.value);
    parsed := Some(clean);
    var resultJson := parse(clean);
    if resultJson.Failure? {
      return Success(FallbackAnalysis(resultJson.error)), sent, parsed;
    }
    outcome := Success(resultJson.value);
  }

  /** The fallback record's fixed fields. */
  lemma FallbackAnalysisFields(error: string)
    ensures FallbackAnalysis(error).jenjang == "Tidak Teridentifikasi"
    ensures FallbackAnalysis(error).confidenceScore == 0
    ensures FallbackAnalysis(error).alasan == "Gagal analisis AI: " + error
    ensures FallbackAnalysis(error).saran == "-"
    ensures FallbackAnalysis(error).badgeColor == "ABU"
  {
  }
}
