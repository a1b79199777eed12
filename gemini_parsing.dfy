/** Parsing a study sentence through the language model: the model's reply is
    cleaned of Markdown fences and cut down to its JSON array, each array
    element becomes a topic with defaults for missing fields, and any failure
    falls back to a plain comma-splitting parser. The network call and the
    JSON reader are parameters. */
module GeminiParsing {
  import opened Wrappers
  import opened Text
  import opened Seqs
  import TopicParsing

  /** The confidence of a topic, kept as a tag: the number the model gave, the
      0.5 used when it gave none, or the 0.3 of the fallback parser. */
  datatype Confidence = FromModel(literal: string) | Unstated | FallbackGuess

  datatype ParsedTopic = ParsedTopic(topic: string, subject: string, priority: bool, reason: string, confidence: Confidence)

  /** A JSON tree as the JSON reader returns it. A number keeps its literal
      and, when it is integral, its value. */
  datatype Json =
    | JNull
    | JBool(b: bool)
    | JNumber(literal: string, integral: Option<int>)
    | JString(s: string)
    | JArray(items: seq<Json>)
    | JObject(fields: map<string, Json>)

  /** Why parsing the reply failed. */
  datatype ParseFailure = NotJson | NotAnArray

  const DefaultSubject: string := "Other"
  const MarkedReason: string := "marked with !"
  const RegularReason: string := "regular entry"

  // ---------------------------------------------------------------------
  // Index search, as `indexOf` and `lastIndexOf` on a character.
  // ---------------------------------------------------------------------

  /** The first position at or after `i` holding `c`, or -1. */
  function IndexFrom(s: string, c: char, i: nat): (r: int)
    requires i <= |s|
    ensures r == -1 || i <= r < |s|
    ensures r >= 0 ==> s[r] == c && forall k :: i <= k < r ==> s[k] != c
    ensures r == -1 <==> forall k :: i <= k < |s| ==> s[k] != c
    decreases |s| - i
  {
    if i == |s| then -1 else if s[i] == c then i else IndexFrom(s, c, i + 1)
  }

  function IndexOf(s: string, c: char): (r: int)
    ensures -1 <= r < |s|
    ensures r >= 0 ==> s[r] == c && forall k :: 0 <= k < r ==> s[k] != c
    ensures r == -1 <==> c !in s
  {
    IndexFrom(s, c, 0)
  }

  /** The last position before `n` holding `c`, or -1. */
  function LastIndexBefore(s: string, c: char, n: nat): (r: int)
    requires n <= |s|
    ensures -1 <= r < n
    ensures r >= 0 ==> s[r] == c && forall k :: r < k < n ==> s[k] != c
    ensures r == -1 <==> forall k :: 0 <= k < n ==> s[k] != c
  {
    if n == 0 then -1 else if s[n - 1] == c then n - 1 else LastIndexBefore(s, c, n - 1)
  }

  function LastIndexOf(s: string, c: char): (r: int)
    ensures -1 <= r < |s|
    ensures r >= 0 ==> s[r] == c && forall k :: r < k < |s| ==> s[k] != c
    ensures r == -1 <==> c !in s
  {
    LastIndexBefore(s, c, |s|)
  }

  // ---------------------------------------------------------------------
  // Cleaning the reply.
  // ---------------------------------------------------------------------

  /** An opening "```" fence removed, with the "json" tag after it. */
  function OpenFence(t: string): string {
    if StartsWith(t, "```") then
      var c := JavaTrim(t[3..]);
      if StartsWith(c, "json") then JavaTrim(c[4..]) else c
    else t
  }

  /** A closing "```" fence removed. */
  function CloseFence(t: string): string {
    if EndsWith(t, "```") then JavaTrim(t[..|t| - 3]) else t
  }

  /** The reply trimmed (an absent reply is empty), without its fences. */
  function Unfenced(response: Option<string>): string {
    CloseFence(OpenFence(JavaTrim(response.GetOr(""))))
  }

  /** `startsWith("[")`. */
  predicate OpensArray(t: string) {
    t != [] && t[0] == '['
  }

  /** Text that does not start with '[' is cut down to the stretch from its
      first '[' to its last ']', when there is one. */
  function ArrayPortion(t: string): string {
    if OpensArray(t) then t
    else
      var lb := IndexOf(t, '[');
      var rb := LastIndexOf(t, ']');
      if lb >= 0 && rb >= lb then JavaTrim(t[lb..rb + 1]) else t
  }

  /** The text handed to the JSON reader. */
  function JsonPart(response: Option<string>): string {
    ArrayPortion(Unfenced(response))
  }

  /** The cleaning steps of `parseGeminiResponse`, reassigning `jsonPart`. */
  method ExtractJsonPart(response: Option<string>) returns (jsonPart: string)
    ensures jsonPart == JsonPart(response)
  {
    jsonPart := if response.None? then "" else JavaTrim(response.value);
    assert jsonPart == JavaTrim(response.GetOr(""));
    jsonPart := StripOpeningFence(jsonPart);
    jsonPart := StripClosingFence(jsonPart);
    jsonPart := CutToArray(jsonPart);
  }

  method StripOpeningFence(text: string) returns (r: string)
    ensures r == OpenFence(text)
  {
    if !StartsWith(text, "```") {
      return text;
    }
    var rest := JavaTrim(text[3..]);
    if StartsWith(rest, "json") {
      r := JavaTrim(rest[4..]);
    } else {
      r := rest;
    }
  }

  method StripClosingFence(text: string) returns (r: string)
    ensures r == CloseFence(text)
  {
    if EndsWith(text, "```") {
      r := JavaTrim(text[..|text| - 3]);
    } else {
      r := text;
    }
  }

  method CutToArray(text: string) returns (r: string)
    ensures r == ArrayPortion(text)
  {
    if OpensArray(text) {
      return text;
    }
    var lb := IndexOf(text, '[');
    var rb := LastIndexOf(text, ']');
    if lb >= 0 && rb >= lb {
      ArrayCut(text);
      BracketsTrimmed(text, lb, rb);
      r := JavaTrim(text[lb..rb + 1]);
    } else {
      ArrayKept(text);
      r := text;
    }
  }

  /** White space in front of text that starts with a non-space is all that
      trimming the front removes. */
  lemma TrimStartBeforeText(x: string, y: string, ws: char -> bool)
    requires y != [] && !ws(y[0])
    ensures TrimStart(x + y, ws) == TrimStart(x, ws) + y
  {
    var n := LeadingSpaces(x, ws);
    var xy := x + y;
    assert forall k :: 0 <= k < n ==> xy[k] == x[k];
    assert n < |x| ==> xy[n] == x[n];
    assert n == |x| ==> xy[n] == y[0];
    LeadingSpacesUnique(xy, ws, n);
    assert xy[n..] == x[n..] + y;
  }

  /** `trim` of text followed by a closing fence keeps the fence and trims
      only the front of the text. */
  lemma TrimBeforeFence(x: string)
    ensures JavaTrim(x + "```") == TrimStart(x, IsJavaTrimSpace) + "```"
  {
    TrimStartBeforeText(x, "```", IsJavaTrimSpace);
    var z := TrimStart(x, IsJavaTrimSpace) + "```";
    assert z[|z| - 1] == '`';
  }

  /** Trimming the front first changes nothing about the trim. */
  lemma TrimAfterTrimStart(x: string)
    ensures JavaTrim(TrimStart(x, IsJavaTrimSpace)) == JavaTrim(x)
  {
    var t := TrimStart(x, IsJavaTrimSpace);
    if t != [] {
      TrimStartOfNonSpace(t, IsJavaTrimSpace);
    }
  }

  /** Text whose two ends are not white space is its own trim. */
  lemma JavaTrimOfTrimmed(x: string)
    requires x != [] && x[0] > ' ' && x[|x| - 1] > ' '
    ensures JavaTrim(x) == x
  {
    assert Trimmed(x, IsJavaTrimSpace);
    TrimOfTrimmed(x, IsJavaTrimSpace);
  }

  /** Removing the closing fence after the payload's leading white space was
      trimmed leaves the trimmed payload. */
  lemma CloseFenceAfterPayload(payload: string)
    ensures CloseFence(TrimStart(payload, IsJavaTrimSpace) + "```") == JavaTrim(payload)
  {
    var t := TrimStart(payload, IsJavaTrimSpace);
    var b := t + "```";
    assert EndsWith(b, "```");
    assert b[..|b| - 3] == t;
    TrimAfterTrimStart(payload);
  }

  /** A reply with a fence at both ends is already trimmed. */
  lemma FencedIsTrimmed(payload: string)
    ensures JavaTrim("```" + payload + "```") == "```" + payload + "```"
  {
    var s := "```" + payload + "```";
    assert s[0] == '`' && s[|s| - 1] == '`';
    JavaTrimOfTrimmed(s);
  }

  /** The opening fence and its "json" tag go, with the white space after
      them. */
  lemma OpenJsonFence(payload: string)
    ensures OpenFence("```json" + payload + "```") == TrimStart(payload, IsJavaTrimSpace) + "```"
  {
    var q := payload + "```";
    var c := "json" + q;
    var s := "```" + c;
    assert s == "```json" + payload + "```";
    assert s[3..] == c;
    assert c[0] == 'j' && c[|c| - 1] == '`';
    JavaTrimOfTrimmed(c);
    assert StartsWith(c, "json");
    assert c[4..] == q;
    TrimBeforeFence(payload);
  }

  /** Text that does not open with "json" still does not once a closing
      fence follows it. */
  lemma NoTagBeforeFence(t: string)
    requires !StartsWith(t, "json")
    ensures !StartsWith(t + "```", "json")
  {
    var b := t + "```";
    if |t| >= 4 {
      assert b[..4] == t[..4];
    } else {
      assert b[|t|] == '`';
      assert "json"[|t|] != '`';
    }
  }

  /** The opening fence goes, with the white space after it. */
  lemma OpenPlainFence(payload: string)
    requires !StartsWith(TrimStart(payload, IsJavaTrimSpace), "json")
    ensures OpenFence("```" + payload + "```") == TrimStart(payload, IsJavaTrimSpace) + "```"
  {
    var q := payload + "```";
    var s := "```" + q;
    assert s == "```" + payload + "```";
    assert s[3..] == q;
    TrimBeforeFence(payload);
    NoTagBeforeFence(TrimStart(payload, IsJavaTrimSpace));
  }

  /** A reply fenced as "```json" + payload + "```" is cleaned to the trimmed
      payload. */
  lemma FencedJson(payload: string)
    ensures Unfenced(Some("```json" + payload + "```")) == JavaTrim(payload)
  {
    var s := "```json" + payload + "```";
    assert s == "```" + ("json" + payload) + "```";
    calc {
      Unfenced(Some(s));
      CloseFence(OpenFence(JavaTrim(s)));
      { FencedIsTrimmed("json" + payload); }
      CloseFence(OpenFence(s));
      { OpenJsonFence(payload); }
      CloseFence(TrimStart(payload, IsJavaTrimSpace) + "```");
      { CloseFenceAfterPayload(payload); }
      JavaTrim(payload);
    }
  }

  /** A reply fenced as "```" + payload + "```", where the payload does not
      open with "json", is cleaned to the trimmed payload. */
  lemma FencedPlain(payload: string)
    requires !StartsWith(TrimStart(payload, IsJavaTrimSpace), "json")
    ensures Unfenced(Some("```" + payload + "```")) == JavaTrim(payload)
  {
    FencedIsTrimmed(payload);
    OpenPlainFence(payload);
    CloseFenceAfterPayload(payload);
  }

  /** An absent reply is cleaned to the empty text. */
  lemma AbsentReply()
    ensures JsonPart(None) == ""
  {
    assert JavaTrim("") == "";
  }

  /** There is a '[' with a ']' at or after it exactly when the first '['
      comes no later than the last ']'. */
  lemma BracketPair(t: string)
    ensures (exists i, j :: 0 <= i <= j < |t| && t[i] == '[' && t[j] == ']')
      <==> IndexOf(t, '[') >= 0 && LastIndexOf(t, ']') >= IndexOf(t, '[')
  {
    var lb := IndexOf(t, '[');
    var rb := LastIndexOf(t, ']');
    if exists i, j :: 0 <= i <= j < |t| && t[i] == '[' && t[j] == ']' {
      var i, j :| 0 <= i <= j < |t| && t[i] == '[' && t[j] == ']';
      assert t[i] in t && t[j] in t;
      assert lb <= i;
      assert j <= rb;
    }
    if lb >= 0 && rb >= lb {
      assert t[lb] == '[' && t[rb] == ']';
    }
  }

  /** Text that neither starts with '[' nor has a '[' with a ']' at or after
      it is kept as it is. */
  lemma ArrayKept(t: string)
    requires !OpensArray(t) && (IndexOf(t, '[') < 0 || LastIndexOf(t, ']') < IndexOf(t, '['))
    ensures ArrayPortion(t) == t
  {
  }

  /** Otherwise text that does not start with '[' is cut to exactly the
      stretch from its first '[' to its last ']'. */
  lemma ArrayCut(t: string)
    requires !OpensArray(t) && IndexOf(t, '[') >= 0 && LastIndexOf(t, ']') >= IndexOf(t, '[')
    ensures ArrayPortion(t) == t[IndexOf(t, '[')..LastIndexOf(t, ']') + 1]
  {
    BracketsTrimmed(t, IndexOf(t, '['), LastIndexOf(t, ']'));
  }

  /** The cut opens with '[' and closes with ']'; what is cut off in front
      holds no '[', what is cut off behind holds no ']'. */
  lemma ArrayCutEnds(t: string)
    requires !OpensArray(t) && IndexOf(t, '[') >= 0 && LastIndexOf(t, ']') >= IndexOf(t, '[')
    ensures var r := ArrayPortion(t); |r| >= 1 && r[0] == '[' && r[|r| - 1] == ']'
    ensures '[' !in t[..IndexOf(t, '[')] && ']' !in t[LastIndexOf(t, ']') + 1..]
  {
    ArrayCut(t);
    var lb, rb := IndexOf(t, '['), LastIndexOf(t, ']');
    var r := t[lb..rb + 1];
    assert r[0] == t[lb] && r[|r| - 1] == t[rb];
    NothingBeforeFirst(t, '[');
    NothingAfterLast(t, ']');
  }

  lemma BracketsTrimmed(t: string, lb: int, rb: int)
    requires 0 <= lb <= rb < |t| && t[lb] == '[' && t[rb] == ']'
    ensures JavaTrim(t[lb..rb + 1]) == t[lb..rb + 1]
  {
    var r := t[lb..rb + 1];
    assert r[0] == '[' && r[|r| - 1] == ']';
    JavaTrimOfTrimmed(r);
  }

  lemma NothingBeforeFirst(s: string, c: char)
    requires IndexOf(s, c) >= 0
    ensures c !in s[..IndexOf(s, c)]
  {
    var i := IndexOf(s, c);
    forall k | 0 <= k < i
      ensures s[..i][k] != c
    {
    }
  }

  lemma NothingAfterLast(s: string, c: char)
    requires LastIndexOf(s, c) >= 0
    ensures c !in s[LastIndexOf(s, c) + 1..]
  {
    var j := LastIndexOf(s, c) + 1;
    forall k | 0 <= k < |s| - j
      ensures s[j..][k] != c
    {
      assert s[j..][k] == s[j + k];
    }
  }

  // ---------------------------------------------------------------------
  // Reading the array.
  // ---------------------------------------------------------------------

  /** `path(name)`: the field of an object, or the missing node (`None`). */
  function Path(node: Json, name: string): Option<Json> {
    if node.JObject? && name in node.fields then Some(node.fields[name]) else None
  }

  /** `asText(default)`: missing and null nodes give the default, scalars their
      text, arrays and objects the empty text. */
  function AsText(n: Option<Json>, default: string): (r: string)
    ensures n.None? || n == Some(JNull) ==> r == default
    ensures n.Some? && n.value.JString? ==> r == n.value.s
  {
    match n
    case None => default
    case Some(JNull) => default
    case Some(JBool(b)) => if b then "true" else "false"
    case Some(JNumber(literal, _)) => literal
    case Some(JString(s)) => s
    case Some(_) => ""
  }

  /** `asBoolean(default)`: a boolean is itself, a text "true" or "false"
      (trimmed) is that value, an integral number is true when non-zero;
      anything else gives the default. */
  function AsBoolean(n: Option<Json>, default: bool): (r: bool)
    ensures n.None? ==> r == default
    ensures n.Some? && n.value.JBool? ==> r == n.value.b
  {
    match n
    case Some(JBool(b)) => b
    case Some(JString(s)) =>
      var t := JavaTrim(s);
      if t == "true" then true else if t == "false" then false else default
    case Some(JNumber(_, integral)) => if integral.Some? then integral.value != 0 else default
    case _ => default
  }

  /** One array element as a topic, with the defaults for missing fields. */
  function TopicOfNode(node: Json): (t: ParsedTopic)
    ensures Path(node, "topic").None? ==> t.topic == ""
    ensures Path(node, "subject").None? ==> t.subject == DefaultSubject
    ensures Path(node, "priority").None? ==> !t.priority
    ensures Path(node, "reason").None? ==> t.reason == ""
    ensures t.confidence == Unstated <==> !(Path(node, "confidence").Some? && Path(node, "confidence").value.JNumber?)
  {
    var confidence := Path(node, "confidence");
    ParsedTopic(
      AsText(Path(node, "topic"), ""),
      AsText(Path(node, "subject"), DefaultSubject),
      AsBoolean(Path(node, "priority"), false),
      AsText(Path(node, "reason"), ""),
      if confidence.Some? && confidence.value.JNumber? then FromModel(confidence.value.literal) else Unstated)
  }

  /** An element that is not an object has every field missing. */
  lemma NonObjectElement(node: Json)
    requires !node.JObject?
    ensures TopicOfNode(node) == ParsedTopic("", DefaultSubject, false, "", Unstated)
  {
  }

  /** What `parseGeminiResponse` returns for a reply, given what the JSON
      reader makes of the cleaned text (`None` when it throws): a failure
      unless the reader gives an array, otherwise one topic per element, in
      order. */
  function GeminiResult(response: Option<string>, readTree: string -> Option<Json>): Result<seq<ParsedTopic>, ParseFailure> {
    var tree := readTree(JsonPart(response));
    if tree.None? then Failure(NotJson)
    else if !tree.value.JArray? then Failure(NotAnArray)
    else Success(MapSeq(tree.value.items, TopicOfNode))
  }

  /** `parseGeminiResponse`: clean, read, and turn each element into a topic. */
  method ParseGeminiResponse(response: Option<string>, readTree: string -> Option<Json>)
    returns (r: Result<seq<ParsedTopic>, ParseFailure>)
    ensures r == GeminiResult(response, readTree)
    ensures r.Failure? <==> readTree(JsonPart(response)).None? || !readTree(JsonPart(response)).value.JArray?
    ensures r.Success? ==> |r.value| == |readTree(JsonPart(response)).value.items|
  {
    var jsonPart := ExtractJsonPart(response);
    var topics := readTree(jsonPart);
    if topics.None? {
      return Failure(NotJson);
    }
    if !topics.value.JArray? {
      return Failure(NotAnArray);
    }
    var result := TopicsOfArray(topics.value.items);
    r := Success(result);
  }

  /** The loop over the array's elements, one topic each. */
  method TopicsOfArray(items: seq<Json>) returns (result: seq<ParsedTopic>)
    ensures result == MapSeq(items, TopicOfNode)
  {
    result := [];
    var i := 0;
    while i < |items|
      invariant 0 <= i <= |items|
      invariant |result| == i
      invariant forall k :: 0 <= k < i ==> result[k] == TopicOfNode(items[k])
    {
      result := result + [TopicOfNode(items[i])];
      i := i + 1;
    }
  }

  // ---------------------------------------------------------------------
  // The fallback parser.
  // ---------------------------------------------------------------------

  /** The sentence lower-cased, without a leading study phrase (here the
      pattern has no `!?`), trimmed. */
  function FallbackCleaned(sentence: string): string {
    JavaTrim(TopicParsing.StripLeadingPhrase(Lower(sentence), false))
  }

  /** A segment that is not blank after trimming. */
  predicate NonBlank(segment: string) {
    JavaTrim(segment) != []
  }

  /** The topic of a non-blank segment: a leading '!' marks a priority and is
      removed, the rest trimmed again (and possibly empty). */
  function FallbackTopic(segment: string): ParsedTopic {
    var topic := JavaTrim(segment);
    var isPriority := OpensWith(topic, '!');
    ParsedTopic(
      if isPriority then JavaTrim(topic[1..]) else topic,
      DefaultSubject,
      isPriority,
      if isPriority then MarkedReason else RegularReason,
      FallbackGuess)
  }

  /** The fallback topics of a list of segments, blank ones skipped. */
  function FallbackTopics(segments: seq<string>): seq<ParsedTopic> {
    if segments == [] then []
    else
      var g := segments[|segments| - 1];
      FallbackTopics(segments[..|segments| - 1]) + (if NonBlank(g) then [FallbackTopic(g)] else [])
  }

  function Fallback(sentence: string): seq<ParsedTopic> {
    FallbackTopics(Split(FallbackCleaned(sentence), ','))
  }

  /** `fallbackParsing`, as its loop over the segments. */
  method FallbackParsing(sentence: string) returns (result: seq<ParsedTopic>)
    ensures result == Fallback(sentence)
  {
    var cleaned := JavaTrim(TopicParsing.StripLeadingPhrase(Lower(sentence), false));
    var segments := Split(cleaned, ',');
    result := [];
    var i := 0;
    while i < |segments|
      invariant 0 <= i <= |segments|
      invariant result == FallbackTopics(segments[..i])
    {
      assert segments[..i + 1][..i] == segments[..i];
      var topic := JavaTrim(segments[i]);
      if topic != [] {
        var isPriority := OpensWith(topic, '!');
        if isPriority {
          topic := JavaTrim(topic[1..]);
        }
        result := result + [ParsedTopic(topic, DefaultSubject, isPriority,
          if isPriority then MarkedReason else RegularReason, FallbackGuess)];
      }
      i := i + 1;
    }
    assert segments[..i] == segments;
  }

  /** The fallback keeps one topic per non-blank segment, in order, with no
      merging: the topics are exactly the non-blank segments' topics. */
  lemma {:induction false} FallbackTopicsAreFiltered(segments: seq<string>)
    ensures FallbackTopics(segments) == MapSeq(Filter(segments, NonBlank), FallbackTopic)
  {
    if segments != [] {
      var p := segments[..|segments| - 1];
      var g := segments[|segments| - 1];
      FallbackTopicsAreFiltered(p);
      var tail := if NonBlank(g) then [g] else [];
      assert Filter(segments, NonBlank) == Filter(p, NonBlank) + tail;
      MapSeqAppend(Filter(p, NonBlank), tail, FallbackTopic);
      assert MapSeq(tail, FallbackTopic) == if NonBlank(g) then [FallbackTopic(g)] else [];
    }
  }

  /** Every fallback topic has the subject "Other", the low confidence, a
      priority flag exactly when its segment starts with '!', and the reason
      that goes with the flag. A segment of just "!" gives an empty priority
      topic. */
  lemma FallbackTopicFacts(segment: string)
    ensures FallbackTopic(segment).subject == DefaultSubject
    ensures FallbackTopic(segment).confidence == FallbackGuess
    ensures FallbackTopic(segment).priority <==> OpensWith(JavaTrim(segment), '!')
    ensures FallbackTopic(segment).reason == if FallbackTopic(segment).priority then MarkedReason else RegularReason
    ensures JavaTrim(segment) == "!" ==> FallbackTopic(segment).topic == [] && FallbackTopic(segment).priority
    ensures Trimmed(FallbackTopic(segment).topic, IsJavaTrimSpace)
  {
    var topic := JavaTrim(segment);
    TrimWithFacts(segment, IsJavaTrimSpace);
    if OpensWith(topic, '!') {
      TrimWithFacts(topic[1..], IsJavaTrimSpace);
      if topic == "!" {
        assert topic[1..] == [];
      }
    }
  }

  /** The number of fallback topics is the number of non-blank segments. */
  lemma FallbackCount(sentence: string)
    ensures |Fallback(sentence)| == |Filter(Split(FallbackCleaned(sentence), ','), NonBlank)|
  {
    FallbackTopicsAreFiltered(Split(FallbackCleaned(sentence), ','));
  }

  // ---------------------------------------------------------------------
  // The entry point.
  // ---------------------------------------------------------------------

  /** `parseStudyEntry`. `reply` is the model's reply to the prompt, or `None`
      when building the prompt or calling the model threw. Whenever that call
      or the parsing of its reply fails, the result is the fallback parse. */
  method ParseStudyEntry(sentence: string, reply: Option<Option<string>>, readTree: string -> Option<Json>)
    returns (topics: seq<ParsedTopic>)
    ensures reply.None? ==> topics == Fallback(sentence)
    ensures reply.Some? && GeminiResult(reply.value, readTree).Failure? ==> topics == Fallback(sentence)
    ensures reply.Some? && GeminiResult(reply.value, readTree).Success? ==>
      topics == GeminiResult(reply.value, readTree).value
  {
    if reply.None? {
      topics := FallbackParsing(sentence);
      return;
    }
    var parsed := ParseGeminiResponse(reply.value, readTree);
    match parsed {
      case Success(ts) =>
        topics := ts;
      case Failure(_) =>
        topics := FallbackParsing(sentence);
    }
  }
}
