/** The serverless analysis handler (netlify/functions/analyze-patrimonial-status.js):
    its status-code decision table, the rule-context text it puts in the
    prompt, and the reading of the language model's answer. The geographic
    lookup, the language model and `JSON.parse` are oracles passed in as
    functions; the handler's own branching and string work is modelled. */
module Handler {
  import opened Wrappers
  import opened Strings
  import opened RuleFilter
  import opened Fences

  // ---------------------------------------------------------------------------
  // The request
  // ---------------------------------------------------------------------------

  datatype Coords = Coords(latitude: real, longitude: real)

  /** The fields destructured from the request body; `None` stands for an
      absent or falsy field. An empty array is truthy, so `Some([])` is a
      present field. */
  datatype RequestBody = RequestBody(
    relevantRules: Option<seq<RelevantRule>>,
    uniqueSpeciesNames: Option<seq<string>>,
    coords: Option<Coords>)

  /** `JSON.parse(event.body)`: a body that does not parse (or parses to
      `null`) throws with a message. */
  datatype BodyParse = Unparsable(message: string) | Parsed(body: RequestBody)

  datatype Event = Event(httpMethod: string, body: BodyParse)

  // ---------------------------------------------------------------------------
  // The oracles
  // ---------------------------------------------------------------------------

  /** The commune lookup: the first commune's department and region codes,
      or the message of whatever it threw (network failure, no commune,
      no department). */
  datatype GeoAnswer = Commune(departmentCode: string, regionCode: string) | GeoFailed(message: string)

  /** What the prompt is made of: the administrative codes, the rule context
      and the observed names. The surrounding prose is fixed text. */
  datatype Prompt = Prompt(departmentCode: string, regionCode: string, ruleContext: string, species: seq<string>)

  /** The language model's answer, as far as the handler reads it. For
      candidates and content `None` stands for an absent or falsy property;
      for parts it stands for an absent or `null` one, whose first element
      cannot be read, while `false`, `0` or `""` read like `Some([])`, an
      undefined first element; for the text it stands for an absent one, an empty
      text being `Some("")`, which is still stripped and parsed. */
  datatype Part = Part(text: Option<string>)
  datatype Content = Content(parts: Option<seq<Option<Part>>>)
  datatype Candidate = Candidate(content: Option<Content>)
  datatype Answer = Answer(candidates: Option<seq<Option<Candidate>>>)

  /** The model call: it threw, answered with a status that is not ok, or
      answered ok with a body that is or is not JSON. */
  datatype ModelReply = ModelThrew(message: string) | ModelNotOk(statusText: string) | ModelOk(body: AnswerBody)
  datatype AnswerBody = BadJson(message: string) | Json(answer: Answer)

  /** The verdicts: each species name with its status list. */
  datatype Verdict = Verdict(species: string, statuses: seq<string>)
  type PatrimonialMap = seq<Verdict>

  /** `JSON.parse` of the stripped answer. */
  datatype ParseOutcome = ParseFailed | ParsedMap(verdicts: PatrimonialMap)

  // ---------------------------------------------------------------------------
  // The response
  // ---------------------------------------------------------------------------

  /** Why a 500 was returned: an error raised with a message, or the
      TypeError of reading a property of `undefined`. */
  datatype Cause = Raised(message: string) | TypeErrorReading(property: string)

  datatype ReplyBody = Text(text: string) | ErrorJson(cause: Cause) | MapJson(verdicts: PatrimonialMap)

  datatype Reply = Reply(statusCode: nat, body: ReplyBody)

  /** The outside calls made, in order. */
  datatype Call = GeoCall(coords: Coords) | ModelCall(prompt: Prompt)

  datatype Handled = Handled(reply: Reply, calls: seq<Call>)

  const MethodNotAllowed: string := "Method Not Allowed"
  const InvalidInput: string := "Données d'entrée invalides."
  const AnalysisErrorPrefix: string := "L'API d'analyse a retourné une erreur: "
  const MalformedAnswer: string := "L'API d'analyse a retourné une réponse mal formée."
  const NoDirectMatch: string := "Aucune règle par correspondance directe."

  // ---------------------------------------------------------------------------
  // The rule context (lines 17-19)
  // ---------------------------------------------------------------------------

  /** `- ${rule.species}: ${rule.status}` */
  function RuleLine(rule: RelevantRule): string {
    "- " + rule.species + ": " + rule.status
  }

  function RuleLines(rules: seq<RelevantRule>): (lines: seq<string>)
    ensures |lines| == |rules|
    ensures forall i :: 0 <= i < |rules| ==> lines[i] == RuleLine(rules[i])
  {
    seq(|rules|, i requires 0 <= i < |rules| => RuleLine(rules[i]))
  }

  /** One line per rule joined by line feeds, or the fixed sentence when
      there is no rule. */
  function RuleContext(rules: seq<RelevantRule>): string {
    if |rules| > 0 then Join(RuleLines(rules), '\n') else NoDirectMatch
  }

  /** The fixed sentence appears exactly when there is no rule: a rule
      context always starts with "- ". */
  lemma RuleContextEmptyIff(rules: seq<RelevantRule>)
    ensures RuleContext(rules) == NoDirectMatch <==> rules == []
  {
    if rules != [] {
      var lines := RuleLines(rules);
      JoinStartsWithFirst(lines, '\n');
      assert RuleContext(rules)[0] == '-';
      assert NoDirectMatch[0] == 'A';
    }
  }

  lemma JoinStartsWithFirst(parts: seq<string>, sep: char)
    requires |parts| >= 1 && parts[0] != []
    ensures |Join(parts, sep)| > 0 && Join(parts, sep)[0] == parts[0][0]
  {
  }

  /** With no line feed in any species name or status, the rule context
      splits back into exactly one line per rule, in order. */
  lemma RuleContextLines(rules: seq<RelevantRule>)
    requires rules != []
    requires forall i :: 0 <= i < |rules| ==> '\n' !in rules[i].species && '\n' !in rules[i].status
    ensures Split(RuleContext(rules), '\n') == RuleLines(rules)
  {
    var lines := RuleLines(rules);
    forall i | 0 <= i < |lines|
      ensures '\n' !in lines[i]
    {
      assert lines[i] == "- " + rules[i].species + ": " + rules[i].status;
    }
    SplitJoin(lines, '\n');
  }

  // ---------------------------------------------------------------------------
  // Reading the model's answer (lines 51-56)
  // ---------------------------------------------------------------------------

  /** What the guard `candidates && candidates[0].content && content.parts[0]`
      and the read of `.text` lead to: no answer (the empty map is kept),
      a TypeError on reading a property of `undefined`, or the answer text. */
  datatype Extract = NoAnswer | Unreadable(property: string) | Found(text: string)

  function ExtractText(a: Answer): Extract {
    match a.candidates
    case None => NoAnswer
    case Some(cs) =>
      if |cs| == 0 || cs[0].None? then Unreadable("content")
      else match cs[0].value.content
        case None => NoAnswer
        case Some(content) =>
          match content.parts
          case None => Unreadable("0")
          case Some(ps) =>
            if |ps| == 0 || ps[0].None? then NoAnswer
            else match ps[0].value.text
              case None => Unreadable("replace")
              case Some(t) => Found(t)
  }

  // ---------------------------------------------------------------------------
  // The handler (lines 7-63)
  // ---------------------------------------------------------------------------

  /** Every field the handler needs is present. */
  predicate Complete(b: RequestBody) {
    b.relevantRules.Some? && b.uniqueSpeciesNames.Some? && b.coords.Some?
  }

  function ServerError(cause: Cause): Reply {
    Reply(500, ErrorJson(cause))
  }

  /** The handler, given the event and the three oracles. */
  function Handle(event: Event, geo: Coords -> GeoAnswer, model: Prompt -> ModelReply,
                  parse: string -> ParseOutcome): (h: Handled)
    // the status codes and when each is returned
    ensures h.reply.statusCode in {200, 400, 405, 500}
    ensures h.reply.statusCode == 405 <==> event.httpMethod != "POST"
    ensures h.reply.statusCode == 400 <==> event.httpMethod == "POST" && event.body.Parsed? && !Complete(event.body.body)
    ensures h.reply.statusCode in {400, 405} ==> h.calls == []
    ensures h.reply.statusCode == 200 <==> ReachesModel(event, geo) && AnswerSucceeds(model(PromptOf(event, geo)), parse)
    // the outside calls
    ensures |h.calls| <= 2
    ensures h.calls != [] <==> event.httpMethod == "POST" && event.body.Parsed? && Complete(event.body.body)
    ensures h.calls != [] ==> h.calls[0] == GeoCall(event.body.body.coords.value)
    ensures |h.calls| == 2 <==> ReachesModel(event, geo)
    ensures ReachesModel(event, geo) ==> h.calls[1] == ModelCall(PromptOf(event, geo))
    ensures ReachesModel(event, geo) ==> h.reply == AnswerReply(model(PromptOf(event, geo)), parse)
    // the bodies
    ensures h.reply.statusCode == 405 ==> h.reply.body == Text(MethodNotAllowed)
    ensures h.reply.statusCode == 400 ==> h.reply.body == Text(InvalidInput)
    ensures h.reply.statusCode == 500 ==> h.reply.body.ErrorJson?
    ensures h.reply.statusCode == 200 ==> h.reply.body.MapJson?
  {
    if event.httpMethod != "POST" then
      Handled(Reply(405, Text(MethodNotAllowed)), [])
    else
      match event.body
      case Unparsable(message) => Handled(ServerError(Raised(message)), [])
      case Parsed(b) =>
        if !Complete(b) then
          Handled(Reply(400, Text(InvalidInput)), [])
        else
          var geoCall := GeoCall(b.coords.value);
          match geo(b.coords.value)
          case GeoFailed(message) => Handled(ServerError(Raised(message)), [geoCall])
          case Commune(departmentCode, regionCode) =>
            var prompt := Prompt(departmentCode, regionCode, RuleContext(b.relevantRules.value), b.uniqueSpeciesNames.value);
            var calls := [geoCall, ModelCall(prompt)];
            Handled(AnswerReply(model(prompt), parse), calls)
  }

  /** The model's reply leads to a 200: it is ok, it is JSON, and either
      no answer text is found or the found text parses. */
  predicate AnswerSucceeds(reply: ModelReply, parse: string -> ParseOutcome) {
    && reply.ModelOk? && reply.body.Json?
    && var e := ExtractText(reply.body.answer);
       e.NoAnswer? || (e.Found? && parse(StripFences(e.text)).ParsedMap?)
  }

  /** The reply once the model has been called (lines 48-58). */
  function AnswerReply(reply: ModelReply, parse: string -> ParseOutcome): Reply {
    match reply
    case ModelThrew(message) => ServerError(Raised(message))
    case ModelNotOk(statusText) => ServerError(Raised(AnalysisErrorPrefix + statusText))
    case ModelOk(BadJson(message)) => ServerError(Raised(message))
    case ModelOk(Json(answer)) =>
      match ExtractText(answer)
      case NoAnswer => Reply(200, MapJson([]))
      case Unreadable(property) => ServerError(TypeErrorReading(property))
      case Found(text) =>
        match parse(StripFences(text))
        case ParseFailed => ServerError(Raised(MalformedAnswer))
        case ParsedMap(verdicts) => Reply(200, MapJson(verdicts))
  }

  // ---------------------------------------------------------------------------
  // The answer cases
  // ---------------------------------------------------------------------------

  /** A well-formed request whose lookup succeeds reaches the model. */
  predicate ReachesModel(event: Event, geo: Coords -> GeoAnswer) {
    && event.httpMethod == "POST" && event.body.Parsed? && Complete(event.body.body)
    && geo(event.body.body.coords.value).Commune?
  }

  /** The prompt such a request sends. */
  function PromptOf(event: Event, geo: Coords -> GeoAnswer): Prompt
    requires ReachesModel(event, geo)
  {
    var b := event.body.body;
    var commune := geo(b.coords.value);
    Prompt(commune.departmentCode, commune.regionCode, RuleContext(b.relevantRules.value), b.uniqueSpeciesNames.value)
  }

  /** Empty lists are truthy: a request with no rule and no name is not
      rejected as invalid; it reaches the lookup, and the prompt carries the
      fixed sentence. */
  lemma EmptyListsAccepted(event: Event, geo: Coords -> GeoAnswer, model: Prompt -> ModelReply,
                           parse: string -> ParseOutcome)
    requires event.httpMethod == "POST"
    requires event.body.Parsed? && event.body.body.relevantRules == Some([])
    requires event.body.body.uniqueSpeciesNames == Some([]) && event.body.body.coords.Some?
    ensures Handle(event, geo, model, parse).reply.statusCode != 400
    ensures ReachesModel(event, geo) ==> PromptOf(event, geo).ruleContext == NoDirectMatch
  {
  }

  /** A model answer that is not ok becomes a 500 carrying the status text. */
  lemma ModelNotOkIsServerError(statusText: string, parse: string -> ParseOutcome)
    ensures AnswerReply(ModelNotOk(statusText), parse) == ServerError(Raised(AnalysisErrorPrefix + statusText))
  {
  }

  /** No `candidates` at all: 200 with the empty map. */
  lemma MissingCandidatesIsEmptyMap(parse: string -> ParseOutcome)
    ensures AnswerReply(ModelOk(Json(Answer(None))), parse) == Reply(200, MapJson([]))
  {
  }

  /** An empty `candidates` array is truthy, so `candidates[0].content`
      throws: 500. */
  lemma EmptyCandidatesIsServerError(parse: string -> ParseOutcome)
    ensures AnswerReply(ModelOk(Json(Answer(Some([])))), parse) == ServerError(TypeErrorReading("content"))
  {
  }

  /** A first candidate without content, or content whose parts list is
      empty: 200 with the empty map, whatever the other candidates hold. */
  lemma MissingContentOrPartIsEmptyMap(parse: string -> ParseOutcome, rest: seq<Option<Candidate>>)
    ensures AnswerReply(ModelOk(Json(Answer(Some([Some(Candidate(None))] + rest)))), parse) == Reply(200, MapJson([]))
    ensures AnswerReply(ModelOk(Json(Answer(Some([Some(Candidate(Some(Content(Some([])))))] + rest)))), parse)
      == Reply(200, MapJson([]))
  {
  }

  /** An answer text found and parsed: the reply is the parsed map; found
      but not parsable: 500 with the malformed-answer message. */
  lemma FoundAnswerIsParsed(answer: Answer, parse: string -> ParseOutcome, text: string)
    requires ExtractText(answer) == Found(text)
    ensures parse(StripFences(text)).ParsedMap? ==>
      AnswerReply(ModelOk(Json(answer)), parse) == Reply(200, MapJson(parse(StripFences(text)).verdicts))
    ensures parse(StripFences(text)).ParseFailed? ==>
      AnswerReply(ModelOk(Json(answer)), parse) == ServerError(Raised(MalformedAnswer))
  {
  }

  /** The usual fenced answer reaches `JSON.parse` as its trimmed body. */
  lemma FencedAnswerIsParsedTrimmed(parse: string -> ParseOutcome, body: string)
    requires forall i :: 0 <= i < |body| ==> body[i] != '`'
    requires parse(Trim(body)).ParsedMap?
    ensures var text := JsonFence + "\n" + body + "\n" + Fence;
      AnswerReply(ModelOk(Json(Answer(Some([Some(Candidate(Some(Content(Some([Some(Part(Some(text)))])))))])))), parse)
        == Reply(200, MapJson(parse(Trim(body)).verdicts))
  {
    PlainFencedAnswer(body);
  }
}
