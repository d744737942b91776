/**
 * The pure core of `OllamaWrapper.RequestTranslation`: building the prompt
 * and the request, cleaning the model's reply, and turning the outcome of
 * the HTTP call into a `RequestResult`. The HTTP call itself is replaced by
 * an `Outcome` value saying what it produced.
 */
module Ollama {
  import opened Text

  const LanguagePlaceholder: string := "{{language}}"
  const TextPlaceholder: string := "{{text}}"
  const ThinkEnd: string := "</think>"
  const Arrow: string := "=>"
  const KeepAlive: string := "15m"
  const GenerateEndpoint: string := "/api/generate"

  /** The fields of `OllamaSettings` the wrapper reads. */
  datatype OllamaSettings = OllamaSettings(serverUrl: string, model: string, translationPrompt: string)

  /** The JSON body posted to the server. */
  datatype OllamaRequest = OllamaRequest(model: string, prompt: string, stream: bool, keepAlive: string)

  /** What the completion callback receives. */
  datatype RequestResult = RequestResult(result: string, success: bool)

  /** An HTTP status: its numeric code and `HttpStatusCode.ToString()` of it. */
  datatype HttpStatus = HttpStatus(code: int, name: string)

  /** `HttpResponseMessage.IsSuccessStatusCode`. */
  predicate IsSuccessStatusCode(status: HttpStatus) {
    200 <= status.code <= 299
  }

  /** What the awaited HTTP exchange produced: a response whose JSON body
      carried the `response` field, or an exception (a transport error, a
      body that does not deserialise, a missing `response` field). */
  datatype Outcome =
    | Responded(status: HttpStatus, response: string)
    | Threw(message: string)

  // ---------------------------------------------------------------- prompt

  /** The template with every `{{language}}` replaced by the target language,
      and then every `{{text}}` replaced by the text. */
  function BuildPrompt(template: string, language: string, text: string): string {
    ReplaceAll(ReplaceAll(template, LanguagePlaceholder, language), TextPlaceholder, text)
  }

  /** The substitution is sequential: a `{{text}}` inside the language value
      is expanded as well. */
  lemma {:induction false} BuildPromptExpandsTextInLanguage(language: string, text: string)
    ensures BuildPrompt(LanguagePlaceholder, language, text) == ReplaceAll(language, TextPlaceholder, text)
  {
    var p := LanguagePlaceholder;
    assert MatchAt(p, p, 0);
    ReplaceAllAtFirst(p, p, language, 0);
    assert p[..0] == [] && p[|p|..] == [];
    assert ReplaceAll(p, p, language) == language;
  }

  /** A template with neither placeholder is sent as it is. */
  lemma {:induction false} BuildPromptWithoutPlaceholders(template: string, language: string, text: string)
    requires forall j :: !MatchAt(template, LanguagePlaceholder, j)
    requires forall j :: !MatchAt(template, TextPlaceholder, j)
    ensures BuildPrompt(template, language, text) == template
  {
    ReplaceAllAbsent(template, LanguagePlaceholder, language);
    ReplaceAllAbsent(template, TextPlaceholder, text);
  }

  /** A placeholder `{{name}}` whose name holds no brace. */
  function Placeholder(name: string): string {
    "{{" + name + "}}"
  }

  predicate BraceFree(name: string) {
    forall k :: 0 <= k < |name| ==> name[k] != '{' && name[k] != '}'
  }

  /** One placeholder occurs inside another only if they are the same. */
  lemma {:induction false} PlaceholderMatchesOnlyItself(name: string, other: string, j: int)
    requires BraceFree(name) && BraceFree(other)
    ensures MatchAt(Placeholder(name), Placeholder(other), j) ==> name == other
  {
    var t, p := Placeholder(name), Placeholder(other);
    if MatchAt(t, p, j) {
      assert t[j..j + |p|][1] == p[1] == '{';
      assert t[j + 1] == '{';
      assert j == 0;
      assert t[..|p|][|p| - 2] == p[|p| - 2] == '}';
      assert |other| == |name|;
      assert t == p;
      assert name == t[2..2 + |name|] == p[2..2 + |other|] == other;
    }
  }

  // ------------------------------------------------------ template shape

  /** A prompt template read as literal text and `{{name}}` placeholders. */
  datatype Segment = Literal(text: string) | Hole(name: string)

  function SegmentText(seg: Segment): string {
    match seg
    case Literal(t) => t
    case Hole(name) => Placeholder(name)
  }

  /** The template the segments spell. */
  function Join(segs: seq<Segment>): string {
    if segs == [] then "" else SegmentText(segs[0]) + Join(segs[1..])
  }

  predicate SegmentWellFormed(seg: Segment) {
    match seg
    case Literal(t) => '{' !in t
    case Hole(name) => BraceFree(name)
  }

  /** Literals hold no `{` and placeholder names no brace, so the
      placeholders the segments name are the only ones the template holds. */
  predicate WellFormed(segs: seq<Segment>) {
    forall k :: 0 <= k < |segs| ==> SegmentWellFormed(segs[k])
  }

  /** What one pass of replacement should give: every `{{name}}` hole
      becomes the literal value. */
  function Fill(segs: seq<Segment>, name: string, value: string): (r: seq<Segment>)
    ensures |r| == |segs|
  {
    if segs == [] then []
    else
      var head := if segs[0] == Hole(name) then Literal(value) else segs[0];
      [head] + Fill(segs[1..], name, value)
  }

  /** The prompt a template should give, segment by segment: `{{language}}`
      becomes the language, `{{text}}` the text, and any other placeholder
      stays as it is written. */
  function Instantiate(segs: seq<Segment>, language: string, text: string): string {
    if segs == [] then ""
    else
      var head := match segs[0]
        case Literal(t) => t
        case Hole(name) =>
          if name == "language" then language
          else if name == "text" then text
          else Placeholder(name);
      head + Instantiate(segs[1..], language, text)
  }

  /** With a brace-free target language, `BuildPrompt` does on any
      well-formed template what `Instantiate` says: each placeholder is
      replaced or kept as a whole, and the text is inserted verbatim. */
  lemma {:induction false} BuildPromptInstantiates(segs: seq<Segment>, language: string, text: string)
    requires WellFormed(segs) && (Hole("language") in segs ==> '{' !in language)
    ensures BuildPrompt(Join(segs), language, text) == Instantiate(segs, language, text)
  {
    assert LanguagePlaceholder == Placeholder("language");
    assert TextPlaceholder == Placeholder("text");
    ReplaceAllJoin(segs, "language", language);
    var filled := Fill(segs, "language", language);
    FillWellFormed(segs, "language", language);
    ReplaceAllJoin(filled, "text", text);
    FillTwiceInstantiates(segs, language, text);
  }

  /** One pass of `ReplaceAll` over a well-formed template replaces exactly
      its `{{name}}` holes. */
  lemma {:induction false} ReplaceAllJoin(segs: seq<Segment>, name: string, value: string)
    requires WellFormed(segs) && BraceFree(name)
    ensures ReplaceAll(Join(segs), Placeholder(name), value) == Join(Fill(segs, name, value))
    decreases |segs|
  {
    var p := Placeholder(name);
    if segs == [] {
      ReplaceAllAbsent("", p, value);
    } else {
      var a, b := SegmentText(segs[0]), Join(segs[1..]);
      assert WellFormed(segs[1..]) by {
        forall k | 0 <= k < |segs[1..]| ensures SegmentWellFormed(segs[1..][k]) {
          assert segs[1..][k] == segs[k + 1];
        }
      }
      assert SegmentWellFormed(segs[0]);
      SegmentNoMatchAcross(segs[0], b, name);
      ReplaceAllConcat(a, b, p, value);
      ReplaceAllJoin(segs[1..], name, value);
      ReplaceAllSegment(segs[0], name, value);
    }
  }

  /** A single segment: its own hole is replaced, anything else is kept. */
  lemma {:induction false} ReplaceAllSegment(seg: Segment, name: string, value: string)
    requires SegmentWellFormed(seg) && BraceFree(name)
    ensures ReplaceAll(SegmentText(seg), Placeholder(name), value)
         == SegmentText(if seg == Hole(name) then Literal(value) else seg)
  {
    var p := Placeholder(name);
    match seg
    case Literal(t) =>
      NoMatchWithoutFirstChar(t, p);
      ReplaceAllAbsent(t, p, value);
    case Hole(other) =>
      if other == name {
        assert MatchAt(p, p, 0);
        ReplaceAllAtFirst(p, p, value, 0);
        assert p[..0] == [] && p[|p|..] == [];
        ReplaceAllAbsent([], p, value);
      } else {
        forall j ensures !MatchAt(Placeholder(other), p, j) {
          PlaceholderMatchesOnlyItself(other, name, j);
        }
        ReplaceAllAbsent(Placeholder(other), p, value);
      }
  }

  /** No placeholder straddles the end of a well-formed segment. */
  lemma {:induction false} SegmentNoMatchAcross(seg: Segment, b: string, name: string)
    requires SegmentWellFormed(seg) && BraceFree(name)
    ensures NoMatchAcross(SegmentText(seg), b, Placeholder(name))
  {
    var a, p := SegmentText(seg), Placeholder(name);
    forall j | j < |a| < j + |p| ensures !MatchAt(a + b, p, j) {
      if 0 <= j && j + |p| <= |a + b| {
        var s := a + b;
        match seg
        case Literal(t) =>
          assert s[j] == t[j] && t[j] in t;
          MismatchAt(s, p, j, 0);
        case Hole(other) =>
          if j == 0 {
            var m := |other| + 2;
            assert s[m] == a[m] == '}';
            assert p[m] == name[|other|];
            MismatchAt(s, p, j, m);
          } else if j == 1 {
            assert s[2] == a[2] == (if |other| == 0 then '}' else other[0]);
            MismatchAt(s, p, j, 1);
          } else {
            assert s[j] == a[j] == (if j < |other| + 2 then other[j - 2] else '}');
            MismatchAt(s, p, j, 0);
          }
      }
    }
  }

  /** Filling a hole with brace-free text keeps the segments well formed. */
  lemma {:induction false} FillWellFormed(segs: seq<Segment>, name: string, value: string)
    requires WellFormed(segs) && (Hole(name) in segs ==> '{' !in value)
    ensures WellFormed(Fill(segs, name, value))
    decreases |segs|
  {
    if segs != [] {
      assert Hole(name) in segs[1..] ==> Hole(name) in segs;
      assert WellFormed(segs[1..]) by {
        forall k | 0 <= k < |segs[1..]| ensures SegmentWellFormed(segs[1..][k]) {
          assert segs[1..][k] == segs[k + 1];
        }
      }
      FillWellFormed(segs[1..], name, value);
      var r := Fill(segs, name, value);
      forall k | 0 <= k < |r| ensures SegmentWellFormed(r[k]) {
        if k > 0 {
          assert r[k] == Fill(segs[1..], name, value)[k - 1];
        } else {
          assert SegmentWellFormed(segs[0]);
        }
      }
    }
  }

  /** Filling `{{language}}` and then `{{text}}` spells what `Instantiate` says. */
  lemma {:induction false} FillTwiceInstantiates(segs: seq<Segment>, language: string, text: string)
    ensures Join(Fill(Fill(segs, "language", language), "text", text)) == Instantiate(segs, language, text)
    decreases |segs|
  {
    if segs != [] {
      var once := Fill(segs, "language", language);
      assert once[1..] == Fill(segs[1..], "language", language);
      var twice := Fill(once, "text", text);
      assert twice[1..] == Fill(once[1..], "text", text);
      FillTwiceInstantiates(segs[1..], language, text);
    }
  }

  /** The text is inserted verbatim where `{{text}}` stands, even when it
      holds placeholders itself, and the literal text around it is kept. */
  lemma {:induction false} BuildPromptKeepsTextVerbatim(prefix: string, suffix: string, language: string, text: string)
    requires '{' !in prefix && '{' !in suffix
    ensures BuildPrompt(prefix + TextPlaceholder + suffix, language, text) == prefix + text + suffix
  {
    var segs := [Literal(prefix), Hole("text"), Literal(suffix)];
    assert TextPlaceholder == Placeholder("text");
    ThreeSegments(prefix, "text", suffix, language, text);
    BuildPromptInstantiates(segs, language, text);
  }

  /** Any placeholder other than `{{language}}` and `{{text}}` is kept as it
      is, with the literal text around it. */
  lemma {:induction false} BuildPromptLeavesOtherPlaceholders(prefix: string, name: string, suffix: string, language: string, text: string)
    requires '{' !in prefix && '{' !in suffix
    requires BraceFree(name) && name != "language" && name != "text"
    ensures BuildPrompt(prefix + Placeholder(name) + suffix, language, text) == prefix + Placeholder(name) + suffix
  {
    ThreeSegments(prefix, name, suffix, language, text);
    BuildPromptInstantiates([Literal(prefix), Hole(name), Literal(suffix)], language, text);
  }

  lemma {:induction false} ThreeSegments(prefix: string, name: string, suffix: string, language: string, text: string)
    requires '{' !in prefix && '{' !in suffix && BraceFree(name) && name != "language"
    ensures var segs := [Literal(prefix), Hole(name), Literal(suffix)];
      && WellFormed(segs) && Hole("language") !in segs
      && Join(segs) == prefix + Placeholder(name) + suffix
      && Instantiate(segs, language, text) == prefix + (if name == "text" then text else Placeholder(name)) + suffix
  {
    var segs := [Literal(prefix), Hole(name), Literal(suffix)];
    var last := [Literal(suffix)];
    assert segs[1..] == [Hole(name), Literal(suffix)];
    assert segs[1..][1..] == last && last[1..] == [];
    assert Join(last) == suffix;
    assert Instantiate(last, language, text) == suffix;
    assert Join(segs[1..]) == Placeholder(name) + suffix;
    AppendAssoc(prefix, Placeholder(name), suffix);
  }

  /** The request body: the configured model, the prompt, no streaming, and
      the model kept loaded for 15 minutes. */
  function BuildRequest(settings: OllamaSettings, text: string, targetLanguage: string): OllamaRequest {
    OllamaRequest(settings.model, BuildPrompt(settings.translationPrompt, targetLanguage, text), false, KeepAlive)
  }

  // ------------------------------------------------------------ sanitising

  /** Step one: drop everything up to and including the first `</think>`,
      then trim. */
  function AfterThink(response: string): string {
    var thinkIndex := IndexOf(response, ThinkEnd);
    if thinkIndex >= 0 then Trim(response[thinkIndex + |ThinkEnd|..]) else Trim(response)
  }

  /** Step two: one leading `=>` is removed and the rest trimmed again. */
  function StripArrow(text: string): string {
    if StartsWith(text, Arrow) then Trim(text[|Arrow|..]) else text
  }

  /** The translated text taken from the model's reply. */
  function Sanitize(response: string): (r: string)
    ensures IsTrimmed(r)
  {
    StripArrow(AfterThink(response))
  }

  /** With a `</think>` at index `i` and none before it, the text kept is the
      trimmed remainder after that first marker. */
  lemma {:induction false} SanitizeAfterFirstThink(response: string, i: nat)
    requires MatchAt(response, ThinkEnd, i)
    requires forall j :: 0 <= j < i ==> !MatchAt(response, ThinkEnd, j)
    ensures Sanitize(response) == StripArrow(Trim(response[i + |ThinkEnd|..]))
  {
    IndexOfFinds(response, ThinkEnd);
    var k := IndexOf(response, ThinkEnd);
    assert k == i by {
      assert k >= 0;
      assert !(k < i) && !(i < k);
    }
    assert AfterThink(response) == Trim(response[i + |ThinkEnd|..]);
  }

  /** Without `</think>` the reply is only trimmed, and then stripped of a
      leading `=>` if there is one. */
  lemma {:induction false} SanitizeWithoutThink(response: string)
    requires forall j :: !MatchAt(response, ThinkEnd, j)
    ensures Sanitize(response) == StripArrow(Trim(response))
    ensures !StartsWith(Trim(response), Arrow) ==> Sanitize(response) == Trim(response)
  {
    AfterThinkAbsent(response);
  }

  lemma {:induction false} AfterThinkAbsent(response: string)
    requires forall j :: !MatchAt(response, ThinkEnd, j)
    ensures AfterThink(response) == Trim(response)
  {
    IndexOfFinds(response, ThinkEnd);
  }

  /** A reply that starts with `=>` (and holds no `<`, so no `</think>`)
      loses the marker and the white space around the rest. */
  lemma {:induction false} SanitizeLeadingArrow(body: string)
    requires '<' !in body
    ensures Sanitize(Arrow + body) == Trim(body)
  {
    var s := Arrow + body;
    assert '<' !in s;
    NoMatchWithoutFirstChar(s, ThinkEnd);
    AfterThinkAbsent(s);
    StripArrowAfterTrim(body);
  }

  lemma {:induction false} StripArrowAfterTrim(body: string)
    ensures StripArrow(Trim(Arrow + body)) == Trim(body)
  {
    TrimIsInnerPart(body);
    var i, j :| 0 <= i <= j <= |body| && Trim(body) == body[i..j]
                && WhiteSpaceBetween(body, 0, i) && WhiteSpaceBetween(body, j, |body|);
    if i < j {
      StripArrowAfterTrimWithText(body, i, j);
    } else {
      var s := Arrow + body;
      forall k | 2 <= k < |s| ensures IsWhiteSpace(s[k]) {
        assert s[k] == body[k - 2];
      }
      assert s[..2] == Arrow;
      TrimUnique(s, 0, 2);
      assert s[..2][2..] == "";
    }
  }

  lemma {:induction false} StripArrowAfterTrimWithText(body: string, i: nat, j: nat)
    requires i < j <= |body| && Trim(body) == body[i..j]
    requires WhiteSpaceBetween(body, 0, i) && WhiteSpaceBetween(body, j, |body|)
    ensures StripArrow(Trim(Arrow + body)) == Trim(body)
  {
    var s := Arrow + body;
    TrimArrowPrefixed(body, i, j);
    assert s[..2 + j][2..] == body[..j];
    TrimDropsTrailing(body, i, j);
    assert StartsWith(s[..2 + j], Arrow);
  }

  lemma {:induction false} TrimArrowPrefixed(body: string, i: nat, j: nat)
    requires i < j <= |body| && Trim(body) == body[i..j]
    requires WhiteSpaceBetween(body, j, |body|)
    ensures Trim(Arrow + body) == (Arrow + body)[..2 + j]
  {
    var s := Arrow + body;
    forall k | 2 + j <= k < |s| ensures IsWhiteSpace(s[k]) {
      assert s[k] == body[k - 2];
    }
    assert body[i..j][j - i - 1] == body[j - 1];
    assert s[..2 + j][0] == '=' && s[..2 + j][1 + j] == body[j - 1];
    TrimUnique(s, 0, 2 + j);
  }

  lemma {:induction false} TrimDropsTrailing(body: string, i: nat, j: nat)
    requires i < j <= |body| && Trim(body) == body[i..j]
    requires WhiteSpaceBetween(body, 0, i)
    ensures Trim(body[..j]) == Trim(body)
  {
    var kept := body[..j];
    assert kept[i..j] == body[i..j];
    forall k | 0 <= k < i ensures IsWhiteSpace(kept[k]) {
      assert kept[k] == body[k];
    }
    TrimUnique(kept, i, j);
  }

  /** A reply with no `<`, no white space at its ends and no leading `=>`
      comes through unchanged. */
  lemma {:induction false} SanitizeKeepsPlainReply(response: string)
    requires '<' !in response && IsTrimmed(response) && !StartsWith(response, Arrow)
    ensures Sanitize(response) == response
  {
    NoMatchWithoutFirstChar(response, ThinkEnd);
    AfterThinkAbsent(response);
    TrimOfTrimmed(response);
  }

  /** A reasoning trace followed by `</think>` is dropped as a whole when the
      trace itself holds no `</`. */
  lemma {:induction false} SanitizeDropsReasoning(reasoning: string, answer: string)
    requires forall j :: 0 <= j < |reasoning| - 1 ==> !(reasoning[j] == '<' && reasoning[j + 1] == '/')
    ensures Sanitize(reasoning + ThinkEnd + answer) == StripArrow(Trim(answer))
  {
    var s := reasoning + ThinkEnd + answer;
    var n := |reasoning|;
    assert s[n..n + |ThinkEnd|] == ThinkEnd;
    forall j | 0 <= j < n ensures !MatchAt(s, ThinkEnd, j) {
      if j + |ThinkEnd| <= |s| {
        assert s[j..j + |ThinkEnd|][0] == s[j] && s[j..j + |ThinkEnd|][1] == s[j + 1];
        assert j + 1 < n ==> s[j + 1] == reasoning[j + 1];
      }
    }
    SanitizeAfterFirstThink(s, n);
    assert s[n + |ThinkEnd|..] == answer;
  }

  /** A leading `=>` is removed once only: a reply carrying the marker twice
      keeps the second one. */
  lemma {:induction false} SanitizeStripsArrowOnce(body: string)
    requires '<' !in body && IsTrimmed(body)
    ensures Sanitize(Arrow + Arrow + body) == Arrow + body
  {
    var once := Arrow + body;
    assert Arrow + Arrow + body == Arrow + once;
    assert '<' !in once;
    SanitizeLeadingArrow(once);
    assert once[0] == '=' && once[|once| - 1] == (if body == [] then '>' else body[|body| - 1]);
    TrimOfTrimmed(once);
  }

  /** Hence cleaning a cleaned reply can change it again. */
  lemma {:induction false} SanitizeNotIdempotent(body: string)
    requires '<' !in body && IsTrimmed(body)
    ensures Sanitize(Sanitize(Arrow + Arrow + body)) == body
    ensures Sanitize(Sanitize(Arrow + Arrow + body)) != Sanitize(Arrow + Arrow + body)
  {
    SanitizeStripsArrowOnce(body);
    SanitizeLeadingArrow(body);
    TrimOfTrimmed(body);
    assert |Arrow + body| != |body|;
  }

  /** A lone leading `>` is not a marker and is kept. */
  lemma {:induction false} SanitizeKeepsLoneChevron(body: string)
    requires '<' !in body && IsTrimmed(body)
    ensures Sanitize(">" + body) == ">" + body
  {
    var s := ">" + body;
    assert s[0] == '>' && s[|s| - 1] == (if body == [] then '>' else body[|body| - 1]);
    assert '<' !in s;
    assert !StartsWith(s, Arrow) by {
      if |Arrow| <= |s| {
        assert s[..|Arrow|][0] == '>';
      }
    }
    SanitizeKeepsPlainReply(s);
  }

  // ------------------------------------------------------ classifying

  /** The value passed to the completion callback: on a success status the
      cleaned reply with `success` left at its default `true`; otherwise
      `success == false` with the status name or the exception message. */
  function Classify(outcome: Outcome): (r: RequestResult)
    ensures r.success <==> outcome.Responded? && IsSuccessStatusCode(outcome.status)
    ensures r.success ==> r.result == Sanitize(outcome.response) && IsTrimmed(r.result)
    ensures outcome.Responded? && !IsSuccessStatusCode(outcome.status) ==> r.result == outcome.status.name
    ensures outcome.Threw? ==> r.result == outcome.message
  {
    match outcome
    case Responded(status, response) =>
      if IsSuccessStatusCode(status) then RequestResult(Sanitize(response), true)
      else RequestResult(status.name, false)
    case Threw(message) => RequestResult(message, false)
  }

  /** One translation request: where it is posted, what is posted, and what
      the callback receives for the given outcome. */
  datatype Translation = Translation(url: string, request: OllamaRequest, result: RequestResult)

  function RequestTranslation(settings: OllamaSettings, text: string, targetLanguage: string, outcome: Outcome): (r: Translation)
    ensures r.url == settings.serverUrl + "/api/generate"
    ensures r.request.model == settings.model && !r.request.stream && r.request.keepAlive == "15m"
    ensures r.request.prompt == BuildPrompt(settings.translationPrompt, targetLanguage, text)
    ensures r.result.success <==> outcome.Responded? && IsSuccessStatusCode(outcome.status)
    ensures r.result.success ==> r.result.result == Sanitize(outcome.response) && IsTrimmed(r.result.result)
    ensures outcome.Responded? && !IsSuccessStatusCode(outcome.status) ==> r.result.result == outcome.status.name
    ensures outcome.Threw? ==> r.result.result == outcome.message
  {
    Translation(settings.serverUrl + GenerateEndpoint, BuildRequest(settings, text, targetLanguage), Classify(outcome))
  }

  /** The prompt's `=>` marker with white space around it is dropped. */
  lemma {:induction false} StripMarkedAnswer(answer: string)
    ensures StripArrow(Trim(" " + Arrow + " " + answer)) == Trim(answer)
  {
    assert " " + Arrow + " " + answer == [' '] + (Arrow + (" " + answer));
    TrimDropsLeadingWhiteSpace(' ', Arrow + (" " + answer));
    StripArrowAfterTrim(" " + answer);
    TrimDropsLeadingWhiteSpace(' ', answer);
  }

  /** A successful reply made of a reasoning trace, `</think>` and the
      prompt's `=>` marker yields the bare trimmed answer. */
  lemma {:induction false} ClassifyReplyWithTrace(status: HttpStatus, reasoning: string, answer: string)
    requires IsSuccessStatusCode(status)
    requires forall j :: 0 <= j < |reasoning| - 1 ==> !(reasoning[j] == '<' && reasoning[j + 1] == '/')
    ensures Classify(Responded(status, reasoning + ThinkEnd + " " + Arrow + " " + answer))
            == RequestResult(Trim(answer), true)
  {
    var tail := " " + Arrow + " " + answer;
    assert reasoning + ThinkEnd + " " + Arrow + " " + answer == reasoning + ThinkEnd + tail;
    SanitizeDropsReasoning(reasoning, tail);
    StripMarkedAnswer(answer);
  }
}
