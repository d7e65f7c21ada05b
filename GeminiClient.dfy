/**
 * The validator of the remote classifier's reply: code fences are removed, the
 * text from the first `{` to the last `}` is handed to a JSON parser, and the
 * two fields are checked. Every failure ends in the default classification.
 */
module GeminiClient {
  import opened Wrappers
  import opened PyText
  import opened QuestionTypes

  /** A decoded JSON value. Numbers are integral; see the README for floats. */
  datatype JsonValue =
    | JNull
    | JBool(b: bool)
    | JNumber(n: int)
    | JString(s: string)
    | JArray(items: seq<JsonValue>)
    | JObject(fields: map<string, JsonValue>)

  /** The outcome of the HTTP call: it raised, or it answered with a status code and,
      when the body decoded and the candidate text was found in it, that text. */
  datatype Response = Raised | Reply(statusCode: int, text: Option<string>)

  /** `_default_classification`. */
  const DefaultClassification := Classification(Mixed, false)

  const JsonFence := "```json"
  const Fence := "```"

  // ---------------------------------------------------------------------
  // Removing code fences
  // ---------------------------------------------------------------------

  /** The text before the first occurrence of `p` (all of `s` when there is none). */
  function UpTo(s: string, p: string): (r: string)
    ensures |r| <= |s| && r == s[..|r|]
  {
    var f := Find(s, p);
    if f >= 0 then s[..f] else s
  }

  /** The text after the first occurrence of `p`. */
  function After(s: string, p: string): (r: string)
    requires Contains(s, p)
    ensures |r| <= |s| && r == s[|s| - |r|..]
  {
    s[Find(s, p) + |p|..]
  }

  /** `text.split(...)` in `_parse_gemini_response`: keep what the first fenced block holds. */
  function StripFences(text: string): string {
    var t := Strip(text);
    if Contains(t, JsonFence) then Split(Split(t, JsonFence)[1], Fence)[0]
    else if Contains(t, Fence) then Split(Split(t, Fence)[1], Fence)[0]
    else t
  }

  /** The first piece of a split is the text before the first separator. */
  lemma SplitHead(s: string, p: string)
    requires |p| > 0
    ensures Split(s, p)[0] == UpTo(s, p)
  {
    SplitFirstPiece(s, p);
  }

  /** The second piece of a split is the text between the first and second separators. */
  lemma SplitSecond(s: string, p: string)
    requires |p| > 0 && Contains(s, p)
    ensures |Split(s, p)| >= 2 && Split(s, p)[1] == UpTo(After(s, p), p)
  {
    SplitFirstPiece(s, p);
    SplitHead(After(s, p), p);
  }

  /** The text before a separator does not contain it, and ends where the separator starts. */
  lemma UpToStopsAtSeparator(s: string, p: string)
    requires |p| > 0
    ensures !Contains(UpTo(s, p), p)
    ensures UpTo(s, p) == s || p <= s[|UpTo(s, p)|..]
  {
    if Contains(s, p) {
      PrefixBeforeFind(s, p);
      assert OccursAt(s, p, Find(s, p));
    }
  }

  /**
   * Cutting at a longer mark `q` and then at its prefix `p` leaves a prefix of `s`
   * without `p` that ends at an occurrence of `p` or at the end of `s`.
   */
  lemma CutTwice(s: string, q: string, p: string)
    requires |p| > 0 && p <= q
    ensures var r := UpTo(UpTo(s, q), p);
            && r == s[..|r|]
            && !Contains(r, p)
            && (r == s || p <= s[|r|..])
  {
    var u := UpTo(s, q);
    var r := UpTo(u, p);
    UpToStopsAtSeparator(u, p);
    if r != u {
      assert s[|r|..|u|] == u[|r|..];
    } else if u != s {
      UpToStopsAtSeparator(s, q);
      assert q <= s[|u|..];
      assert p <= s[|r|..];
    }
  }

  /**
   * With a ```` ```json ```` fence, what is searched is a prefix of the text after the
   * first such fence that holds no plain fence and stops at one (or at the end).
   */
  lemma JsonFenceRegion(text: string)
    requires Contains(Strip(text), JsonFence)
    ensures var after := After(Strip(text), JsonFence);
            var r := StripFences(text);
            && |r| <= |after| && r == after[..|r|]
            && !Contains(r, Fence)
            && (r == after || Fence <= after[|r|..])
  {
    var t := Strip(text);
    var after := After(t, JsonFence);
    SplitSecond(t, JsonFence);
    SplitHead(UpTo(after, JsonFence), Fence);
    CutTwice(after, JsonFence, Fence);
  }

  /** With only plain fences, what is searched is exactly the text between the first two. */
  lemma PlainFenceRegion(text: string)
    requires !Contains(Strip(text), JsonFence) && Contains(Strip(text), Fence)
    ensures StripFences(text) == UpTo(After(Strip(text), Fence), Fence)
    ensures !Contains(StripFences(text), Fence)
  {
    var t := Strip(text);
    var inner := UpTo(After(t, Fence), Fence);
    SplitSecond(t, Fence);
    SplitHead(inner, Fence);
    UpToStopsAtSeparator(After(t, Fence), Fence);
  }

  /** Where a text occurs, each of its prefixes occurs too. */
  lemma OccursAtPrefix(t: string, q: string, p: string, f: nat)
    requires OccursAt(t, q, f) && p <= q
    ensures OccursAt(t, p, f)
  {
    assert t[f..f + |p|] == t[f..f + |q|][..|p|];
  }

  /** Without fences the stripped text is searched as it is. */
  lemma NoFenceKeepsText(text: string)
    requires !Contains(Strip(text), Fence)
    ensures StripFences(text) == Strip(text)
  {
    var t := Strip(text);
    if Contains(t, JsonFence) {
      OccursAtPrefix(t, JsonFence, Fence, Find(t, JsonFence));
    }
  }

  // ---------------------------------------------------------------------
  // The JSON candidate
  // ---------------------------------------------------------------------

  /** `text[start:end]` from the first `{` to the last `}`, when `end > start`. */
  function JsonCandidate(t: string): Option<string> {
    var start := Find(t, "{");
    var end := RFind(t, "}") + 1;
    if start >= 0 && end > start then Some(t[start..end]) else None
  }

  /** Where the single characters `{` and `}` occur. */
  lemma BraceOccurrence(t: string, i: nat)
    ensures OccursAt(t, "{", i) <==> i < |t| && t[i] == '{'
    ensures OccursAt(t, "}", i) <==> i < |t| && t[i] == '}'
  {
    if i < |t| {
      assert t[i..i + 1] == [t[i]];
    }
  }

  /** There is a candidate exactly when some `}` follows some `{`. */
  lemma CandidateExistsIffBracePair(t: string)
    ensures JsonCandidate(t).Some? <==> exists i, j :: 0 <= i < j < |t| && t[i] == '{' && t[j] == '}'
  {
    var start := Find(t, "{");
    var close := RFind(t, "}");
    if start >= 0 { BraceOccurrence(t, start); }
    if close >= 0 { BraceOccurrence(t, close); }
    if exists i, j :: 0 <= i < j < |t| && t[i] == '{' && t[j] == '}' {
      var i, j :| 0 <= i < j < |t| && t[i] == '{' && t[j] == '}';
      BraceOccurrence(t, i);
      BraceOccurrence(t, j);
      assert start >= 0 && start <= i;
      assert close >= j;
    }
    if JsonCandidate(t).Some? {
      assert t[start] == '{' && t[close] == '}';
      assert start < close;
    }
  }

  /**
   * The candidate runs from the first `{` to the last `}` inclusive: it starts and
   * ends with them, no `{` comes before it and no `}` after it.
   */
  lemma CandidateIsBraceSpan(t: string)
    requires JsonCandidate(t).Some?
    ensures var c := JsonCandidate(t).value;
            var start := Find(t, "{");
            && 0 <= start && start + |c| <= |t| && c == t[start..start + |c|]
            && |c| >= 2 && c[0] == '{' && c[|c| - 1] == '}'
            && (forall i :: 0 <= i < start ==> t[i] != '{')
            && (forall i :: start + |c| <= i < |t| ==> t[i] != '}')
  {
    var start := Find(t, "{");
    var close := RFind(t, "}");
    BraceOccurrence(t, start);
    BraceOccurrence(t, close);
    forall i | 0 <= i < start ensures t[i] != '{' {
      BraceOccurrence(t, i);
    }
    forall i | close + 1 <= i < |t| ensures t[i] != '}' {
      BraceOccurrence(t, i);
    }
  }

  // ---------------------------------------------------------------------
  // Checking the decoded fields
  // ---------------------------------------------------------------------

  /** `str(n)` for an integer. */
  function IntString(n: int): (r: string)
    ensures |r| > 0 && (r[0] == '-' || '0' <= r[0] <= '9')
  {
    if n < 0 then "-" + DecimalString(-n) else DecimalString(n)
  }

  /**
   * `str(v).lower() == 'true'`. The string form of a list or a dict begins with a
   * bracket, so only the scalars need their exact form.
   */
  predicate SpellsTrue(v: JsonValue) {
    match v
    case JNull => Lower("None") == "true"
    case JBool(b) => Lower(if b then "True" else "False") == "true"
    case JNumber(n) => Lower(IntString(n)) == "true"
    case JString(s) => Lower(s) == "true"
    case JArray(_) => false
    case JObject(_) => false
  }

  /** `data.get('question_type', 'mixed')`, replaced by `mixed` unless it is a valid name. */
  function ValidatedType(data: map<string, JsonValue>): QuestionType {
    var v := if "question_type" in data then data["question_type"] else JString("mixed");
    if v.JString? && FromName(v.s).Some? then FromName(v.s).value else Mixed
  }

  /** `data.get('is_composite', False)`, coerced through its string form unless it is a bool. */
  function ValidatedComposite(data: map<string, JsonValue>): bool {
    var v := if "is_composite" in data then data["is_composite"] else JBool(false);
    if v.JBool? then v.b else SpellsTrue(v)
  }

  /** The type is always a valid name: the one given when it is valid, and `mixed` otherwise. */
  lemma ValidatedTypeRules(data: map<string, JsonValue>)
    ensures Name(ValidatedType(data)) in ValidTypes
    ensures ("question_type" in data && data["question_type"].JString? && data["question_type"].s in ValidTypes)
            ==> Name(ValidatedType(data)) == data["question_type"].s
    ensures !("question_type" in data && data["question_type"].JString? && data["question_type"].s in ValidTypes)
            ==> ValidatedType(data) == Mixed
  {
    NameRoundTrip(ValidatedType(data));
  }

  /** The string form of a number never reads `true`. */
  lemma NumberIsNeverTrue(n: int)
    ensures Lower(IntString(n)) != "true"
  {
    var r := IntString(n);
    assert Lower(r)[0] == r[0];
  }

  /**
   * A bool is kept, a missing field is `false`, a string counts when it lower-cases
   * to `true` (so `"TRUE"` does), and numbers, `null`, lists and objects are `false`.
   */
  lemma ValidatedCompositeRules(data: map<string, JsonValue>)
    ensures "is_composite" !in data ==> !ValidatedComposite(data)
    ensures "is_composite" in data && data["is_composite"].JBool?
            ==> ValidatedComposite(data) == data["is_composite"].b
    ensures "is_composite" in data && data["is_composite"].JString?
            ==> (ValidatedComposite(data) <==> Lower(data["is_composite"].s) == "true")
    ensures "is_composite" in data && (data["is_composite"].JNumber? || data["is_composite"].JNull?
                                       || data["is_composite"].JArray? || data["is_composite"].JObject?)
            ==> !ValidatedComposite(data)
  {
    if "is_composite" in data && data["is_composite"].JNumber? {
      NumberIsNeverTrue(data["is_composite"].n);
    }
    if "is_composite" in data && data["is_composite"].JNull? {
      assert Lower("None")[0] == 'n';
    }
  }

  /** The string `"TRUE"` counts as composite. */
  lemma UpperCaseTrueIsComposite()
    ensures ValidatedComposite(map["is_composite" := JString("TRUE")])
  {
    assert Lower("TRUE") == "true";
  }

  // ---------------------------------------------------------------------
  // The reply as a whole
  // ---------------------------------------------------------------------

  /**
   * `_parse_gemini_response`, with `json.loads` as the parameter `parse` (`None` when it
   * raises or yields no object). It is total: every failure is the default classification.
   */
  function ParseResponse(text: string, parse: string -> Option<map<string, JsonValue>>): Classification {
    match JsonCandidate(StripFences(text))
    case None => DefaultClassification
    case Some(candidate) =>
      match parse(candidate)
      case None => DefaultClassification
      case Some(data) => Classification(ValidatedType(data), ValidatedComposite(data))
  }

  /** `classify_question` over the outcome of the HTTP call. */
  function ClassifyQuestion(response: Response, parse: string -> Option<map<string, JsonValue>>): Classification {
    match response
    case Raised => DefaultClassification
    case Reply(status, text) =>
      if status != 200 then DefaultClassification
      else if text.None? then DefaultClassification
      else ParseResponse(text.value, parse)
  }

  /** Without a `}` after some `{` in the searched text, the reply gives the default. */
  lemma NoBracePairGivesDefault(text: string, parse: string -> Option<map<string, JsonValue>>)
    requires var t := StripFences(text);
             !exists i, j :: 0 <= i < j < |t| && t[i] == '{' && t[j] == '}'
    ensures ParseResponse(text, parse) == DefaultClassification
  {
    CandidateExistsIffBracePair(StripFences(text));
  }

  /** A candidate the parser rejects gives the default. */
  lemma ParseFailureGivesDefault(text: string, parse: string -> Option<map<string, JsonValue>>)
    requires JsonCandidate(StripFences(text)).Some?
    requires parse(JsonCandidate(StripFences(text)).value).None?
    ensures ParseResponse(text, parse) == DefaultClassification
  {
  }

  /**
   * A parsed reply gives the validated fields of the object decoded from exactly the
   * brace span of the searched text; its type is always a valid name.
   */
  lemma ParsedReplyIsValidated(text: string, parse: string -> Option<map<string, JsonValue>>)
    requires JsonCandidate(StripFences(text)).Some?
    requires parse(JsonCandidate(StripFences(text)).value).Some?
    ensures var data := parse(JsonCandidate(StripFences(text)).value).value;
            && ParseResponse(text, parse) == Classification(ValidatedType(data), ValidatedComposite(data))
            && Name(ParseResponse(text, parse).questionType) in ValidTypes
  {
    ValidatedTypeRules(parse(JsonCandidate(StripFences(text)).value).value);
  }

  /** A raised call, a status other than 200 or a body without the text gives the default. */
  lemma FailedCallGivesDefault(response: Response, parse: string -> Option<map<string, JsonValue>>)
    requires response.Raised? || response.statusCode != 200 || response.text.None?
    ensures ClassifyQuestion(response, parse) == DefaultClassification
  {
  }

  /** A successful call classifies by its reply text. */
  lemma SuccessfulCallParsesReply(response: Response, parse: string -> Option<map<string, JsonValue>>)
    requires response.Reply? && response.statusCode == 200 && response.text.Some?
    ensures ClassifyQuestion(response, parse) == ParseResponse(response.text.value, parse)
  {
  }
}
