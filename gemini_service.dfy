/**
 * The response handling of `fetchMaximExplanation`: the text the AI service
 * returned is trimmed, the JSON object is cut out of it (first `{` to last `}`),
 * parsed, checked for the required fields, and every error is mapped to the
 * message the caller shows.
 *
 * The service call itself and `JSON.parse` are inputs: the service outcome is a
 * `Result<string, Thrown>` and the parser a function `string -> ParseOutcome`.
 */
module GeminiService {
  import opened Wrappers
  import opened Json
  import opened Types

  const UnreadableMessage := "AI returned a response that could not be read. Please try again."
  const MissingFieldsMessage := "AI response was missing required data fields."
  const MalformedMessage := "The AI returned a malformed data structure. Please try again."
  const UnexpectedMessage := "An unexpected error occurred while fetching the explanation."

  /** The class of a thrown `Error` object: `Error` itself, `SyntaxError`, or another subclass. */
  datatype ErrorKind = PlainError | SyntaxError | OtherError(name: string)

  /** A thrown JavaScript value: an `Error` (or subclass) with its message, or anything else. */
  datatype Thrown = JsError(kind: ErrorKind, message: string) | NonErrorValue

  /**
   * What `JSON.parse` does with the extracted text. That text always starts
   * with `{`, so a successful parse is a JSON object.
   */
  datatype ParseOutcome = Parsed(obj: JsonObject) | ParseSyntaxError(message: string)

  // ---------------------------------------------------------------------------
  // String primitives: trim, indexOf, lastIndexOf
  // ---------------------------------------------------------------------------

  /** The characters `String.prototype.trim` removes: ECMAScript WhiteSpace and LineTerminator. */
  predicate IsJsWhitespace(c: char)
    ensures IsJsWhitespace(c) ==> c != '{' && c != '}'
  {
    c == '\t' || c == '\n' || c == '\U{B}' || c == '\U{C}' || c == '\r' || c == ' '
    || c == '\U{A0}' || c == '\U{1680}' || ('\U{2000}' <= c <= '\U{200A}')
    || c == '\U{2028}' || c == '\U{2029}' || c == '\U{202F}' || c == '\U{205F}'
    || c == '\U{3000}' || c == '\U{FEFF}'
  }

  /** The first position at or after `from` that is not whitespace, or `|s|`. */
  function SkipWhitespaceFrom(s: string, from: nat): (n: nat)
    requires from <= |s|
    ensures from <= n <= |s|
    ensures forall k :: from <= k < n ==> IsJsWhitespace(s[k])
    ensures n < |s| ==> !IsJsWhitespace(s[n])
    decreases |s| - from
  {
    if from < |s| && IsJsWhitespace(s[from]) then SkipWhitespaceFrom(s, from + 1) else from
  }

  /** Where the whitespace run that ends at `end` starts. */
  function SkipWhitespaceBefore(s: string, end: nat): (m: nat)
    requires end <= |s|
    ensures m <= end
    ensures forall k :: m <= k < end ==> IsJsWhitespace(s[k])
    ensures 0 < m ==> !IsJsWhitespace(s[m - 1])
  {
    if 0 < end && IsJsWhitespace(s[end - 1]) then SkipWhitespaceBefore(s, end - 1) else end
  }

  /** The length of the longest whitespace prefix of `s`. */
  function LeadingWhitespace(s: string): (n: nat)
    ensures n <= |s|
    ensures forall k :: 0 <= k < n ==> IsJsWhitespace(s[k])
    ensures n < |s| ==> !IsJsWhitespace(s[n])
  {
    SkipWhitespaceFrom(s, 0)
  }

  /**
   * `String.prototype.trim`: the result is the slice of `s` left when the
   * longest whitespace prefix and the longest whitespace suffix are removed.
   */
  function Trim(s: string): (r: string)
    ensures LeadingWhitespace(s) + |r| <= |s|
    ensures r == s[LeadingWhitespace(s)..LeadingWhitespace(s) + |r|]
    ensures forall k :: LeadingWhitespace(s) + |r| <= k < |s| ==> IsJsWhitespace(s[k])
    ensures r != [] ==> !IsJsWhitespace(r[0]) && !IsJsWhitespace(r[|r| - 1])
  {
    var start := LeadingWhitespace(s);
    var end := if start == |s| then start else SkipWhitespaceBefore(s, |s|);
    s[start..end]
  }

  /** `s.indexOf(c, from)`: the first position at or after `from` holding `c`, or -1. */
  function IndexOfFrom(s: string, c: char, from: nat): (r: int)
    requires from <= |s|
    ensures r == -1 || from <= r < |s|
    ensures r == -1 ==> forall k :: from <= k < |s| ==> s[k] != c
    ensures 0 <= r ==> s[r] == c && forall k :: from <= k < r ==> s[k] != c
    decreases |s| - from
  {
    if from == |s| then -1
    else if s[from] == c then from
    else IndexOfFrom(s, c, from + 1)
  }

  /** `s.indexOf(c)`: the first position holding `c`, or -1. */
  function IndexOf(s: string, c: char): (r: int)
    ensures -1 <= r < |s|
    ensures r == -1 ==> forall k :: 0 <= k < |s| ==> s[k] != c
    ensures 0 <= r ==> s[r] == c && forall k :: 0 <= k < r ==> s[k] != c
  {
    IndexOfFrom(s, c, 0)
  }

  /** The last position before `end` holding `c`, or -1. */
  function LastIndexOfBefore(s: string, c: char, end: nat): (r: int)
    requires end <= |s|
    ensures -1 <= r < end
    ensures r == -1 ==> forall k :: 0 <= k < end ==> s[k] != c
    ensures 0 <= r ==> s[r] == c && forall k :: r < k < end ==> s[k] != c
  {
    if end == 0 then -1
    else if s[end - 1] == c then end - 1
    else LastIndexOfBefore(s, c, end - 1)
  }

  /** `s.lastIndexOf(c)`: the last position holding `c`, or -1. */
  function LastIndexOf(s: string, c: char): (r: int)
    ensures -1 <= r < |s|
    ensures r == -1 ==> forall k :: 0 <= k < |s| ==> s[k] != c
    ensures 0 <= r ==> s[r] == c && forall k :: r < k < |s| ==> s[k] != c
  {
    LastIndexOfBefore(s, c, |s|)
  }

  /** `c` occurs in `s` only at positions in `[a, b)`. */
  predicate OnlyWithin(s: string, a: nat, b: nat, c: char)
  {
    forall k :: 0 <= k < |s| && s[k] == c ==> a <= k < b
  }

  /** When every `c` of `s` lies in `s[a..b]`, the first `c` of `s` is the first `c` of that slice, shifted. */
  lemma IndexOfWithin(s: string, a: nat, b: nat, c: char)
    requires a <= b <= |s| && OnlyWithin(s, a, b, c)
    ensures IndexOf(s[a..b], c) == -1 ==> IndexOf(s, c) == -1
    ensures IndexOf(s[a..b], c) != -1 ==> IndexOf(s, c) == a + IndexOf(s[a..b], c)
  {
  }

  /** When every `c` of `s` lies in `s[a..b]`, the last `c` of `s` is the last `c` of that slice, shifted. */
  lemma LastIndexOfWithin(s: string, a: nat, b: nat, c: char)
    requires a <= b <= |s| && OnlyWithin(s, a, b, c)
    ensures LastIndexOf(s[a..b], c) == -1 ==> LastIndexOf(s, c) == -1
    ensures LastIndexOf(s[a..b], c) != -1 ==> LastIndexOf(s, c) == a + LastIndexOf(s[a..b], c)
  {
  }

  // ---------------------------------------------------------------------------
  // Extraction of the JSON text
  // ---------------------------------------------------------------------------

  /** `s` holds a `{` at or before some `}`. */
  predicate HasBracePair(s: string)
  {
    exists i, j :: 0 <= i <= j < |s| && s[i] == '{' && s[j] == '}'
  }

  /** `s` is a candidate JSON object text: it starts with `{` and ends with `}`. */
  predicate BraceDelimited(s: string)
  {
    |s| >= 1 && s[0] == '{' && s[|s| - 1] == '}'
  }

  /**
   * From the first `{` to the last `}` inclusive, or the "could not be read"
   * error when either brace is missing or the last `}` precedes the first `{`.
   */
  function CutObjectText(text: string): (r: Result<string, Thrown>)
    ensures r.Failure? ==> r.error == JsError(PlainError, UnreadableMessage)
    ensures r.Success? ==> BraceDelimited(r.value)
    ensures r.Success? ==> exists i, j ::
      && 0 <= i <= j < |text| && text[i] == '{' && text[j] == '}'
      && (forall k :: 0 <= k < i ==> text[k] != '{')
      && (forall k :: j < k < |text| ==> text[k] != '}')
      && r.value == text[i..j + 1]
  {
    var start, end := IndexOf(text, '{'), LastIndexOf(text, '}');
    if start == -1 || end == -1 || end < start then Failure(JsError(PlainError, UnreadableMessage))
    else
      assert text[start] == '{' && text[end] == '}';
      Success(text[start..end + 1])
  }

  /** The extraction step: trim the service's text, then cut the object text out of it. */
  function ExtractJsonText(response: string): (r: Result<string, Thrown>)
    ensures r.Failure? ==> r.error == JsError(PlainError, UnreadableMessage)
    ensures r.Success? ==> BraceDelimited(r.value)
  {
    CutObjectText(Trim(response))
  }

  /** Cutting from a slice whose braces sit where those of `s` do, shifted by `a`, gives the same text as cutting from `s`. */
  lemma CutFromSlice(s: string, a: nat, b: nat)
    requires a <= b <= |s|
    requires var it := IndexOf(s[a..b], '{'); IndexOf(s, '{') == if it == -1 then -1 else a + it
    requires var jt := LastIndexOf(s[a..b], '}'); LastIndexOf(s, '}') == if jt == -1 then -1 else a + jt
    ensures CutObjectText(s[a..b]) == CutObjectText(s)
  {
    var t := s[a..b];
    var it, jt := IndexOf(t, '{'), LastIndexOf(t, '}');
    var i, j := IndexOf(s, '{'), LastIndexOf(s, '}');
    if it == -1 || jt == -1 || jt < it {
      assert i == -1 || j == -1 || j < i;
      assert CutObjectText(t) == Failure(JsError(PlainError, UnreadableMessage));
      assert CutObjectText(s) == Failure(JsError(PlainError, UnreadableMessage));
    } else {
      assert i == a + it && j == a + jt;
      SliceOfSlice(s, a, b, it, jt + 1);
      assert CutObjectText(t) == Success(t[it..jt + 1]);
      assert CutObjectText(s) == Success(s[i..j + 1]);
    }
  }

  lemma SliceOfSlice(s: string, a: nat, b: nat, i: nat, j: nat)
    requires a <= b <= |s| && i <= j <= b - a
    ensures s[a..b][i..j] == s[a + i..a + j]
  {
    assert |s[a..b][i..j]| == |s[a + i..a + j]|;
    forall k | 0 <= k < j - i ensures s[a..b][i..j][k] == s[a + i..a + j][k] {
      assert s[a..b][i..j][k] == s[a..b][i + k] == s[a + i + k];
    }
  }

  /**
   * Trimming never changes the outcome, since braces are not whitespace: the
   * extraction is the slice of the raw response from its first `{` to its last
   * `}`, and it fails exactly when there is no such slice.
   */
  lemma ExtractIsFirstOpenToLastClose(response: string)
    ensures ExtractJsonText(response) == CutObjectText(response)
  {
    var a := LeadingWhitespace(response);
    var b := a + |Trim(response)|;
    assert OnlyWithin(response, a, b, '{') && OnlyWithin(response, a, b, '}') by {
      TrimKeepsBraces(response, '{');
      TrimKeepsBraces(response, '}');
    }
    IndexOfWithin(response, a, b, '{');
    LastIndexOfWithin(response, a, b, '}');
    CutFromSlice(response, a, b);
    assert Trim(response) == response[a..b];
  }

  /** A character that is not whitespace survives trimming: all its occurrences lie in the trimmed slice. */
  lemma TrimKeepsBraces(s: string, c: char)
    requires !IsJsWhitespace(c)
    ensures OnlyWithin(s, LeadingWhitespace(s), LeadingWhitespace(s) + |Trim(s)|, c)
  {
  }

  /** Extraction succeeds exactly when the response holds a `{` at or before some `}`. */
  lemma ExtractSucceedsIff(response: string)
    ensures ExtractJsonText(response).Success? <==> HasBracePair(response)
  {
    ExtractIsFirstOpenToLastClose(response);
    var i, j := IndexOf(response, '{'), LastIndexOf(response, '}');
    if HasBracePair(response) {
      var i0, j0 :| 0 <= i0 <= j0 < |response| && response[i0] == '{' && response[j0] == '}';
      assert i <= i0 && j0 <= j;
    }
  }

  /** A text that already starts with `{` and ends with `}` is extracted whole. */
  lemma BraceDelimitedIsFixedPoint(body: string)
    requires BraceDelimited(body)
    ensures ExtractJsonText(body) == Success(body)
  {
    ExtractIsFirstOpenToLastClose(body);
    assert body[0] == '{' && body[|body| - 1] == '}';
    assert body[0..|body|] == body;
  }

  /** Extraction is idempotent: extracting from an extracted text gives it back unchanged. */
  lemma ExtractIdempotent(response: string)
    requires ExtractJsonText(response).Success?
    ensures ExtractJsonText(ExtractJsonText(response).value) == ExtractJsonText(response)
  {
    BraceDelimitedIsFixedPoint(ExtractJsonText(response).value);
  }

  /**
   * Wrapping an object text in a prefix without `{` and a suffix without `}`
   * (code fences, a sentence of commentary, whitespace) does not change what
   * is extracted.
   */
  lemma WrappingIsTransparent(prefix: string, body: string, suffix: string)
    requires BraceDelimited(body)
    requires '{' !in prefix && '}' !in suffix
    ensures ExtractJsonText(prefix + body + suffix) == ExtractJsonText(body) == Success(body)
  {
    var s := prefix + body + suffix;
    var i, j := |prefix|, |prefix| + |body| - 1;
    BraceDelimitedIsFixedPoint(body);
    ExtractIsFirstOpenToLastClose(s);
    assert s[i] == body[0] == '{';
    forall k | 0 <= k < i ensures s[k] != '{' {
      assert s[k] == prefix[k];
    }
    assert IndexOf(s, '{') == i;
    assert s[j] == body[|body| - 1] == '}';
    forall k | j < k < |s| ensures s[k] != '}' {
      assert s[k] == suffix[k - j - 1];
    }
    assert LastIndexOf(s, '}') == j;
    assert s[i..j + 1] == body;
  }

  // ---------------------------------------------------------------------------
  // Validation of the parsed object
  // ---------------------------------------------------------------------------

  /** The `if` of the validation: `maxim` and `meaning` truthy, `stories` an array. */
  predicate HasRequiredFields(obj: JsonObject)
    ensures HasRequiredFields(obj) ==> "maxim" in obj && "meaning" in obj && "stories" in obj && obj["stories"].JArray?
    ensures "maxim" in obj && obj["maxim"] == JString("") ==> !HasRequiredFields(obj)
    ensures "meaning" in obj && obj["meaning"] == JString("") ==> !HasRequiredFields(obj)
  {
    Truthy(Member(obj, "maxim")) && Truthy(Member(obj, "meaning")) && IsArray(Member(obj, "stories"))
  }

  /**
   * Accept the parsed object unchanged when it has the required fields, or fail
   * with the "missing required data fields" error.
   */
  function Validate(obj: JsonObject): (r: Result<JsonObject, Thrown>)
    ensures r.Success? <==> HasRequiredFields(obj)
    ensures r.Success? ==> r.value == obj
    ensures r.Failure? ==> r.error == JsError(PlainError, MissingFieldsMessage)
  {
    if HasRequiredFields(obj) then Success(obj) else Failure(JsError(PlainError, MissingFieldsMessage))
  }

  /** A JSON value that has the shape of a `Story`. */
  predicate IsStory(v: Json)
  {
    v.JObject?
    && Member(v.members, "title").Some? && Member(v.members, "title").value.JString?
    && Member(v.members, "narrative").Some? && Member(v.members, "narrative").value.JString?
    && Member(v.members, "quote").Some? && Member(v.members, "quote").value.JString?
  }

  /** A parsed object that really has the shape of `MaximContent`. */
  predicate ConformsToMaximContent(obj: JsonObject)
  {
    && "maxim" in obj && obj["maxim"].JString?
    && "meaning" in obj && obj["meaning"].JString?
    && "stories" in obj && obj["stories"].JArray?
    && forall k :: 0 <= k < |obj["stories"].items| ==> IsStory(obj["stories"].items[k])
  }

  /** The typed `MaximContent` a conforming object stands for. */
  function AsMaximContent(obj: JsonObject): (c: MaximContent)
    requires ConformsToMaximContent(obj)
    ensures c.maxim == obj["maxim"].s && c.meaning == obj["meaning"].s
    ensures |c.stories| == |obj["stories"].items|
    ensures forall k :: 0 <= k < |c.stories| ==>
      var item := obj["stories"].items[k].members;
      c.stories[k] == Story(item["title"].s, item["narrative"].s, item["quote"].s)
  {
    var items := obj["stories"].items;
    MaximContent(
      obj["maxim"].s, obj["meaning"].s,
      seq(|items|, k requires 0 <= k < |items| =>
        Story(items[k].members["title"].s, items[k].members["narrative"].s, items[k].members["quote"].s)))
  }

  /** The JSON form of a story, as the service is asked to send it. */
  function StoryToJson(st: Story): (v: Json)
    ensures IsStory(v)
  {
    JObject(map["title" := JString(st.title), "narrative" := JString(st.narrative), "quote" := JString(st.quote)])
  }

  /** The JSON object form of a `MaximContent`; it always has the `MaximContent` shape. */
  function ToJson(c: MaximContent): (obj: JsonObject)
    ensures ConformsToMaximContent(obj)
  {
    map[
      "maxim" := JString(c.maxim),
      "meaning" := JString(c.meaning),
      "stories" := JArray(seq(|c.stories|, k requires 0 <= k < |c.stories| => StoryToJson(c.stories[k])))]
  }

  /** Round trip: reading the JSON form of any content back as `MaximContent` gives that content. */
  lemma AsMaximContentInvertsToJson(c: MaximContent)
    ensures AsMaximContent(ToJson(c)) == c
  {
  }

  /** The JSON form of a content passes validation exactly when its maxim and meaning are non-empty. */
  lemma ToJsonAcceptedIff(c: MaximContent)
    ensures Validate(ToJson(c)).Success? <==> c.maxim != "" && c.meaning != ""
  {
  }

  /** A conforming object is accepted exactly when its maxim and meaning are non-empty strings. */
  lemma ConformingAcceptedIff(obj: JsonObject)
    requires ConformsToMaximContent(obj)
    ensures Validate(obj).Success? <==> AsMaximContent(obj).maxim != "" && AsMaximContent(obj).meaning != ""
  {
  }

  /**
   * The check is shallower than the `MaximContent` type: an object whose
   * stories are not stories at all (here one `null`) is still accepted.
   */
  lemma StoryItemsAreNotChecked()
    ensures var obj := map["maxim" := JString("m"), "meaning" := JString("x"), "stories" := JArray([JNull])];
            Validate(obj) == Success(obj) && !ConformsToMaximContent(obj)
  {
    var obj := map["maxim" := JString("m"), "meaning" := JString("x"), "stories" := JArray([JNull])];
    assert !IsStory(obj["stories"].items[0]);
  }

  // ---------------------------------------------------------------------------
  // Error mapping and the whole fetch
  // ---------------------------------------------------------------------------

  /**
   * The `catch` block: a `SyntaxError` becomes the "malformed data structure"
   * error, any other `Error` is rethrown as it is, and a thrown non-`Error`
   * becomes the "unexpected error" error.
   */
  function CatchFetchError(t: Thrown): (r: Thrown)
    ensures r.JsError? && !r.kind.SyntaxError?
    ensures t.JsError? && !t.kind.SyntaxError? ==> r == t
    ensures t.JsError? && t.kind.SyntaxError? ==> r == JsError(PlainError, MalformedMessage)
    ensures t.NonErrorValue? ==> r == JsError(PlainError, UnexpectedMessage)
  {
    match t
    case JsError(SyntaxError, _) => JsError(PlainError, MalformedMessage)
    case JsError(_, _) => t
    case NonErrorValue => JsError(PlainError, UnexpectedMessage)
  }

  /** Passing an error through the `catch` block a second time changes nothing. */
  lemma CatchIsIdempotent(t: Thrown)
    ensures CatchFetchError(CatchFetchError(t)) == CatchFetchError(t)
  {
  }

  /** The `try` block after the service call: extract, parse, validate. */
  function TryBlock(service: Result<string, Thrown>, parse: string -> ParseOutcome): (r: Result<JsonObject, Thrown>)
    ensures service.Failure? ==> r == Failure(service.error)
    ensures r.Success? ==>
      && service.Success?
      && ExtractJsonText(service.value).Success?
      && parse(ExtractJsonText(service.value).value) == Parsed(r.value)
      && HasRequiredFields(r.value)
    ensures service.Success? && r.Failure? ==>
      && r.error.JsError?
      && (r.error.kind.SyntaxError? <==>
            ExtractJsonText(service.value).Success? && parse(ExtractJsonText(service.value).value).ParseSyntaxError?)
      && (!r.error.kind.SyntaxError? ==> r.error.kind == PlainError)
  {
    match service
    case Failure(e) => Failure(e)
    case Success(text) =>
      match ExtractJsonText(text)
      case Failure(e) => Failure(e)
      case Success(jsonText) =>
        match parse(jsonText)
        case ParseSyntaxError(m) => Failure(JsError(SyntaxError, m))
        case Parsed(obj) => Validate(obj)
  }

  /**
   * `fetchMaximExplanation` given the service's outcome and the parser: the
   * validated object, or the error its `catch` block throws.
   */
  function FetchMaximExplanation(service: Result<string, Thrown>, parse: string -> ParseOutcome): (r: Result<JsonObject, Thrown>)
    ensures r.Failure? ==> r.error.JsError? && !r.error.kind.SyntaxError?
    ensures r.Success? ==>
      && service.Success?
      && ExtractJsonText(service.value).Success?
      && parse(ExtractJsonText(service.value).value) == Parsed(r.value)
      && HasRequiredFields(r.value)
  {
    match TryBlock(service, parse)
    case Success(obj) => Success(obj)
    case Failure(e) => Failure(CatchFetchError(e))
  }

  /**
   * Every way the fetch can end, with the message the caller sees: each error
   * of its own (unreadable text, malformed JSON, missing fields) reaches the
   * caller with its message, and a service `Error` keeps its message.
   */
  lemma FetchOutcomes(service: Result<string, Thrown>, parse: string -> ParseOutcome)
    ensures service.Failure? ==>
      FetchMaximExplanation(service, parse) == Failure(CatchFetchError(service.error))
    ensures service.Success? && !HasBracePair(service.value) ==>
      FetchMaximExplanation(service, parse) == Failure(JsError(PlainError, UnreadableMessage))
    ensures service.Success? && ExtractJsonText(service.value).Success? ==>
      var jsonText := ExtractJsonText(service.value).value;
      && (parse(jsonText).ParseSyntaxError? ==>
            FetchMaximExplanation(service, parse) == Failure(JsError(PlainError, MalformedMessage)))
      && (parse(jsonText).Parsed? && !HasRequiredFields(parse(jsonText).obj) ==>
            FetchMaximExplanation(service, parse) == Failure(JsError(PlainError, MissingFieldsMessage)))
      && (parse(jsonText).Parsed? && HasRequiredFields(parse(jsonText).obj) ==>
            FetchMaximExplanation(service, parse) == Success(parse(jsonText).obj))
  {
    if service.Success? {
      ExtractSucceedsIff(service.value);
    }
  }

  /**
   * Round trip through wrapping: a response whose object text is surrounded by
   * extraneous text (no `{` before it, no `}` after it) yields the same outcome
   * as the bare object text, whatever the parser makes of it.
   */
  lemma WrappedResponseSameOutcome(prefix: string, body: string, suffix: string, parse: string -> ParseOutcome)
    requires BraceDelimited(body)
    requires '{' !in prefix && '}' !in suffix
    ensures FetchMaximExplanation(Success(prefix + body + suffix), parse)
            == FetchMaximExplanation(Success(body), parse)
  {
    WrappingIsTransparent(prefix, body, suffix);
  }
}
