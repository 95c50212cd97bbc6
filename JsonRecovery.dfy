// The extraction pipeline of services/pdfExtractor.js: trim the model's
// reply, cut out the JSON-looking region with /\{[\s\S]*\}/, parse it
// strictly and fall back to jsonrepair only when that fails, and return
// data.transactions unfiltered in the { success, count, transactions } /
// { success: false, error } envelope.
module JsonRecovery {
  import opened Wrappers
  import opened JsValues

  const NoJsonMessage := "No JSON object found in LLM response"
  const ParseFailedMessage := "Failed to parse JSON from LLM output"

  /** The position of the first ch in s. */
  function IndexOf(s: string, ch: char): (r: Option<nat>)
    ensures r.Some? ==> (r.value < |s| && s[r.value] == ch
                         && forall k :: 0 <= k < r.value ==> s[k] != ch)
    ensures r.None? ==> forall k :: 0 <= k < |s| ==> s[k] != ch
  {
    if s == [] then None
    else if s[0] == ch then Some(0)
    else match IndexOf(s[1..], ch)
      case None => None
      case Some(i) => Some(i + 1)
  }

  /** The position of the last ch in s. */
  function LastIndexOf(s: string, ch: char): (r: Option<nat>)
    ensures r.Some? ==> (r.value < |s| && s[r.value] == ch
                         && forall k :: r.value < k < |s| ==> s[k] != ch)
    ensures r.None? ==> forall k :: 0 <= k < |s| ==> s[k] != ch
  {
    if s == [] then None
    else if s[|s| - 1] == ch then Some(|s| - 1)
    else LastIndexOf(s[..|s| - 1], ch)
  }

  /**
   * A match of /\{[\s\S]*\}/ in s: it runs from a "{" at i to a "}" at j,
   * with anything (line breaks included) between them.
   */
  ghost predicate MatchAt(s: string, i: int, j: int)
  {
    0 <= i < j < |s| && s[i] == '{' && s[j] == '}'
  }

  /** The match a backtracking regex engine reports: the leftmost start, and the longest match from it. */
  ghost predicate LeftmostGreedy(s: string, i: int, j: int)
  {
    MatchAt(s, i, j)
    && forall i', j' :: MatchAt(s, i', j') ==> i <= i' && (i' == i ==> j' <= j)
  }

  /** Where the regex matches: from the first "{" to the last "}", if that "}" comes after it. */
  function JsonSpan(s: string): Option<(nat, nat)>
  {
    match IndexOf(s, '{')
    case None => None
    case Some(i) =>
      match LastIndexOf(s, '}')
      case None => None
      case Some(j) => if i < j then Some((i, j)) else None
  }

  /** JsonSpan finds the regex's match, and finds none exactly when there is none. */
  lemma JsonSpanSpec(s: string)
    ensures JsonSpan(s).None? <==> forall i, j :: !MatchAt(s, i, j)
    ensures JsonSpan(s).Some? ==> LeftmostGreedy(s, JsonSpan(s).value.0, JsonSpan(s).value.1)
  {
    var first, last := IndexOf(s, '{'), LastIndexOf(s, '}');
    if first.Some? && last.Some? && first.value < last.value {
      assert MatchAt(s, first.value, last.value);
    } else {
      assert forall i, j :: MatchAt(s, i, j) ==>
        first.Some? && last.Some? && first.value <= i && j <= last.value;
    }
  }

  /** The leftmost-greedy match is unique, so any way of finding it agrees with JsonSpan. */
  lemma JsonSpanUnique(s: string, i: nat, j: nat)
    requires LeftmostGreedy(s, i, j)
    ensures JsonSpan(s) == Some((i, j))
  {
    JsonSpanSpec(s);
    var (i0, j0) := JsonSpan(s).value;
    assert MatchAt(s, i, j) && MatchAt(s, i0, j0);
  }

  /**
   * raw?.match(/\{[\s\S]*\}/)?.[0]: the matched text, or nothing when the
   * reply is absent or holds no match. The text is raw[i..j] inclusive,
   * where i is the first "{" and j the last "}", which JsonSpanSpec shows
   * to be the regex's leftmost-greedy match.
   */
  function LocateJson(raw: Option<string>): (r: Option<string>)
    ensures r.None? <==> raw.None? || JsonSpan(raw.value).None?
    ensures r.Some? ==> r.value == raw.value[JsonSpan(raw.value).value.0..JsonSpan(raw.value).value.1 + 1]
    ensures r.Some? ==> |r.value| >= 2 && r.value[0] == '{' && r.value[|r.value| - 1] == '}'
  {
    match raw
    case None => None
    case Some(s) =>
      match JsonSpan(s)
      case None => None
      case Some((i, j)) => Some(s[i..j + 1])
  }

  /** A text that already starts with "{" and ends with "}" is its own match. */
  lemma LocateWholeObject(t: string)
    requires |t| >= 2 && t[0] == '{' && t[|t| - 1] == '}'
    ensures LocateJson(Some(t)) == Some(t)
  {
    JsonSpanUnique(t, 0, |t| - 1);
    assert t[0..|t|] == t;
  }

  /** Cutting out the JSON region a second time changes nothing. */
  lemma LocateJsonIdempotent(raw: Option<string>)
    ensures LocateJson(LocateJson(raw)) == LocateJson(raw)
  {
    if LocateJson(raw).Some? {
      LocateWholeObject(LocateJson(raw).value);
    }
  }

  /** No brace lies outside s[a..b]. */
  ghost predicate BracesWithin(s: string, a: nat, b: nat)
  {
    a <= b <= |s|
    && forall k :: 0 <= k < |s| && !(a <= k < b) ==> s[k] != '{' && s[k] != '}'
  }

  /** Matches in the window s[a..b] are the matches in s, moved by a. */
  lemma WindowMatches(s: string, a: nat, b: nat)
    requires BracesWithin(s, a, b)
    ensures forall i, j :: MatchAt(s[a..b], i, j) ==> MatchAt(s, i + a, j + a)
    ensures forall i, j :: MatchAt(s, i, j) ==> a <= i && j < b && MatchAt(s[a..b], i - a, j - a)
  {
    var t := s[a..b];
    forall i, j | MatchAt(t, i, j) ensures MatchAt(s, i + a, j + a) {
      assert t[i] == s[i + a] && t[j] == s[j + a];
    }
    forall i, j | MatchAt(s, i, j) ensures a <= i && j < b && MatchAt(t, i - a, j - a) {
      assert a <= i && j < b;
      assert t[i - a] == s[i] && t[j - a] == s[j];
    }
  }

  lemma SliceOfSlice(s: string, a: nat, b: nat, x: nat, y: nat)
    requires a <= b <= |s| && x <= y <= b - a
    ensures s[a..b][x..y] == s[a + x..a + y]
  {
    var u, v := s[a..b][x..y], s[a + x..a + y];
    assert |u| == |v|;
    forall k | 0 <= k < |u| ensures u[k] == v[k] {
      assert u[k] == s[a..b][x + k] == s[a + x + k];
    }
  }

  /** The regex's match in s, moved by a, is its match in the window. */
  lemma WindowGreedy(s: string, a: nat, b: nat, i: nat, j: nat)
    requires BracesWithin(s, a, b) && LeftmostGreedy(s, i, j)
    ensures a <= i && j < b && LeftmostGreedy(s[a..b], i - a, j - a)
  {
    WindowMatches(s, a, b);
  }

  /** Cutting away text that holds no brace does not change the located JSON text. */
  lemma LocateJsonInWindow(s: string, a: nat, b: nat)
    requires BracesWithin(s, a, b)
    ensures LocateJson(Some(s[a..b])) == LocateJson(Some(s))
  {
    var t := s[a..b];
    JsonSpanSpec(s);
    if JsonSpan(s).Some? {
      var (i, j) := JsonSpan(s).value;
      WindowGreedy(s, a, b, i, j);
      JsonSpanUnique(t, i - a, j - a);
      SliceOfSlice(s, a, b, i - a, j - a + 1);
    } else {
      WindowMatches(s, a, b);
      JsonSpanSpec(t);
    }
  }

  /**
   * Trimming the reply before matching does not change the matched text:
   * the characters trim removes are never braces.
   */
  lemma LocateJsonIgnoresTrim(s: string)
    ensures LocateJson(Some(Trim(s))) == LocateJson(Some(s))
  {
    var (a, b) := TrimBounds(s);
    assert !IsJsWhitespace('{') && !IsJsWhitespace('}');
    assert BracesWithin(s, a, b);
    LocateJsonInWindow(s, a, b);
  }

  /**
   * JSON.parse first; only when it throws, jsonrepair and JSON.parse again;
   * when either of those throws, the fixed parse-failure message.
   */
  function ParseWithFallback(text: string, parse: string -> Option<JsValue>,
                             repair: string -> Option<string>): (r: Result<JsValue, string>)
    ensures parse(text).Some? ==> r == Ok(parse(text).value)
    ensures r.Err? ==> r.error == ParseFailedMessage
    ensures r.Err? <==> (parse(text).None?
                         && (repair(text).None? || parse(repair(text).value).None?))
    ensures parse(text).None? && repair(text).Some? && parse(repair(text).value).Some? ==>
      r == Ok(parse(repair(text).value).value)
  {
    match parse(text)
    case Some(data) => Ok(data)
    case None =>
      match repair(text)
      case None => Err(ParseFailedMessage)
      case Some(repaired) =>
        match parse(repaired)
        case None => Err(ParseFailedMessage)
        case Some(data) => Ok(data)
  }

  /** jsonrepair is never consulted for text that already parses. */
  lemma StrictParseWins(text: string, parse: string -> Option<JsValue>,
                        repair1: string -> Option<string>, repair2: string -> Option<string>)
    requires parse(text).Some?
    ensures ParseWithFallback(text, parse, repair1) == ParseWithFallback(text, parse, repair2)
  {
  }

  /**
   * extractTransactionsFromText of the services variant, with the chat
   * call's outcome, JSON.parse and jsonrepair as parameters. Reading
   * data.transactions on a null result throws.
   */
  function ExtractServices(completion: Completion, parse: string -> Option<JsValue>,
                           repair: string -> Option<string>): ExtractionResult<JsValue>
  {
    match completion
    case CallFailed(message) => Failed(message)
    case Reply(content) =>
      var raw := if content.Some? then Some(Trim(content.value)) else None;
      match LocateJson(raw)
      case None => Failed(NoJsonMessage)
      case Some(text) =>
        match ParseWithFallback(text, parse, repair)
        case Err(e) => Failed(e)
        case Ok(data) =>
          if IsNullish(data) then Failed(PropertyReadError(data, "transactions"))
          else
            var transactions := ArrayOrEmpty(Get(data, "transactions"));
            Succeeded(|transactions|, transactions)
  }

  /**
   * The records come back exactly as parsed: no normalisation and no
   * filtering, and count is their number. The region is the regex's match
   * in the untrimmed reply.
   */
  lemma ExtractServicesPassesThrough(content: string, parse: string -> Option<JsValue>,
                                     repair: string -> Option<string>, data: JsValue)
    requires LocateJson(Some(content)).Some?
    requires ParseWithFallback(LocateJson(Some(content)).value, parse, repair) == Ok(data)
    requires !IsNullish(data)
    ensures var r := ExtractServices(Reply(Some(content)), parse, repair);
      && r.Succeeded?
      && r.transactions == ArrayOrEmpty(Get(data, "transactions"))
      && r.count == |r.transactions|
  {
    LocateJsonIgnoresTrim(content);
  }

  /** A reply with no "{" followed later by a "}", or no content at all, fails with the no-JSON message. */
  lemma ExtractServicesNoJson(content: Option<string>, parse: string -> Option<JsValue>,
                              repair: string -> Option<string>)
    requires content.Some? ==> forall i, j :: !MatchAt(content.value, i, j)
    ensures ExtractServices(Reply(content), parse, repair) == Failed(NoJsonMessage)
  {
    if content.Some? {
      LocateJsonIgnoresTrim(content.value);
      JsonSpanSpec(content.value);
    }
  }

  /** Every failure carries one of the pipeline's messages, a TypeError's, or the call's own. */
  lemma ExtractServicesErrors(completion: Completion, parse: string -> Option<JsValue>,
                              repair: string -> Option<string>)
    ensures var r := ExtractServices(completion, parse, repair);
      r.Failed? ==> (completion.CallFailed? && r.error == completion.message)
                    || r.error == NoJsonMessage || r.error == ParseFailedMessage
                    || r.error == PropertyReadError(Null, "transactions")
                    || r.error == PropertyReadError(Undefined, "transactions")
  {
  }
}
