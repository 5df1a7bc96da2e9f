/**
 The sans-I/O CalDAV operations: server workflows that ask for authorization before anything
 else, scheduling answers checked against the recipients, and client operations that hold one
 pending request or one result. XML, URI and header syntax are the callers' business here.
 */
module CalDav {
  import opened Octets
  import opened Characters
  import opened Scheduling

  type ErrorCode = string

  datatype WireRequest = WireRequest(verb: Bytes, uri: Bytes, body: Bytes)

  datatype WireResponse = WireResponse(status: nat, headers: seq<(string, Bytes)>, body: Bytes)

  /** What a resource is at a revision: an absent one has no entity tag. */
  datatype Revision = Revision(uri: Bytes, absent: bool, etag: Option<Bytes>)

  datatype SyncResult = SyncResult(token: Option<Bytes>, changes: seq<Bytes>)

  /** What the application is asked for, and what of the request it needs to answer. */
  datatype ServerNeed = ServerNeed(
    code: string,
    verb: Bytes,
    uri: Bytes,
    body: Bytes,
    recipients: seq<Bytes>,
    revision: Option<Revision>,
    token: Option<Bytes>,
    limit: Option<nat>)

  datatype ServerAnswer =
    | Raw(body: Bytes)
    | Authorized(granted: bool)
    | Created(created: bool)
    | Discovery(properties: Bytes)
    | Resources(resources: seq<Bytes>)
    | Schedule(deliveries: seq<Delivery>)
    | Sync(changes: SyncResult)
    | Written(stored: Option<Revision>)

  type ServerResponder = ServerAnswer -> Result<ServerStep, ErrorCode>

  datatype ServerStep = Need(need: ServerNeed, responder: ServerResponder) | Done(response: WireResponse)

  /** The renderers of answers as response bodies, which may refuse; their bodies are not modelled. */
  datatype Renderers = Renderers(
    discovery: Bytes -> Result<Bytes, ErrorCode>,
    query: seq<Bytes> -> Result<Bytes, ErrorCode>,
    sync: SyncResult -> Result<Bytes, ErrorCode>,
    schedule: seq<Delivery> -> Result<Bytes, ErrorCode>)

  const MISMATCH: ErrorCode := "icalkit.caldav.answer-kind-mismatch"
  const UNEXPECTED_ANSWER: ErrorCode := "icalkit.caldav.unexpected-answer"
  const UNEXPECTED_RESPONSE: ErrorCode := "icalkit.caldav.unexpected-response"

  // -------------------------------------------------------------------------
  // The server operation
  // -------------------------------------------------------------------------

  datatype ServerState =
    | Waiting(need: ServerNeed, responder: ServerResponder)
    | Finished(response: WireResponse)
    | Dead

  predicate TooLarge(answer: ServerAnswer, max: nat) {
    answer.Raw? && |answer.body| > max
  }

  /** What one answer does: the state after it, and the error the caller is given, if any. */
  function Supplied(s: ServerState, answer: ServerAnswer, max: nat): (ServerState, Option<ErrorCode>) {
    if !s.Waiting? then (s, Some(UNEXPECTED_ANSWER))
    else if TooLarge(answer, max) then (Dead, Some("icalkit.caldav.answer-too-large"))
    else
      match s.responder(answer)
      case Err(e) => (Dead, Some(e))
      case Ok(Need(need, responder)) => (Waiting(need, responder), None)
      case Ok(Done(response)) => (Finished(response), None)
  }

  /** The state after a whole run of answers. */
  function Run(s: ServerState, answers: seq<ServerAnswer>, max: nat): ServerState
    decreases |answers|
  {
    if answers == [] then s else Run(Supplied(s, answers[0], max).0, answers[1..], max)
  }

  lemma {:induction false} RunSnoc(s: ServerState, answers: seq<ServerAnswer>, answer: ServerAnswer, max: nat)
    ensures Run(s, answers + [answer], max) == Supplied(Run(s, answers, max), answer, max).0
    decreases |answers|
  {
    hide Supplied;
    if answers == [] {
      assert [answer][1..] == [];
    } else {
      assert (answers + [answer])[1..] == answers[1..] + [answer];
      RunSnoc(Supplied(s, answers[0], max).0, answers[1..], answer, max);
    }
  }

  /** An answer past the bound ends the operation for good, whoever was to read it; one at the bound is read. */
  lemma {:induction false} OversizedAnswerIsFatal(
    need: ServerNeed, responder: ServerResponder, body: Bytes, later: seq<ServerAnswer>, max: nat)
    ensures |body| > max ==> Run(Waiting(need, responder), [Raw(body)] + later, max) == Dead
    ensures |body| <= max && responder(Raw(body)).Ok? && responder(Raw(body)).value.Done? ==>
      Run(Waiting(need, responder), [Raw(body)] + later, max) == Finished(responder(Raw(body)).value.response)
  {
    assert ([Raw(body)] + later)[1..] == later;
    var next := Supplied(Waiting(need, responder), Raw(body), max).0;
    if !next.Waiting? { SettledStays(next, later, max); }
  }

  class ServerOperation {
    var need: Option<ServerNeed>
    var response: Option<WireResponse>
    var responder: Option<ServerResponder>
    const maxAnswerBytes: nat

    /** Where the operation began, and every answer it was given. */
    ghost const start: ServerState
    ghost var history: seq<ServerAnswer>

    constructor (need: ServerNeed, responder: ServerResponder, maxAnswerBytes: nat)
      ensures Valid() && history == [] && start == Waiting(need, responder) && this.maxAnswerBytes == maxAnswerBytes
    {
      this.need, this.responder, this.response := Some(need), Some(responder), None;
      this.maxAnswerBytes := maxAnswerBytes;
      start, history := Waiting(need, responder), [];
    }

    ghost function State(): ServerState
      reads this
    {
      if need.Some? && responder.Some? then Waiting(need.value, responder.value)
      else if response.Some? then Finished(response.value)
      else Dead
    }

    /** Need and responder come and go together, never beside a response; the run so far led here. */
    ghost predicate Valid()
      reads this
    {
      && (need.Some? <==> responder.Some?)
      && !(need.Some? && response.Some?)
      && State() == Run(start, history, maxAnswerBytes)
    }

    method Supply(answer: ServerAnswer) returns (r: Result<(), ErrorCode>)
      requires Valid()
      modifies this
      ensures Valid() && history == old(history) + [answer]
      ensures State() == Supplied(old(State()), answer, maxAnswerBytes).0
      ensures r == match Supplied(old(State()), answer, maxAnswerBytes).1 case None => Ok(()) case Some(e) => Err(e)
    {
      RunSnoc(start, history, answer, maxAnswerBytes);
      history := history + [answer];
      if need.None? { return Err(UNEXPECTED_ANSWER); }
      need := None;
      if responder.None? { return Err(UNEXPECTED_ANSWER); }
      var respond := responder.value;
      responder := None;
      if answer.Raw? && |answer.body| > maxAnswerBytes {
        return Err("icalkit.caldav.answer-too-large");
      }
      match respond(answer) {
        case Err(e) => return Err(e);
        case Ok(Need(next, later)) => need, responder := Some(next), Some(later);
        case Ok(Done(answered)) => response := Some(answered);
      }
      return Ok(());
    }

    method Finish() returns (r: Result<WireResponse, ErrorCode>)
      requires Valid()
      modifies this
      ensures r == if old(State()).Finished? then Ok(old(State()).response) else Err("icalkit.caldav.server-operation-incomplete")
    {
      if response.None? { return Err("icalkit.caldav.server-operation-incomplete"); }
      r := Ok(response.value);
      response := None;
    }
  }

  // -------------------------------------------------------------------------
  // The workflows
  // -------------------------------------------------------------------------

  datatype Workflow =
    | PropFind
    | CalendarQuery
    | SyncCollection(token: Option<Bytes>, limit: Option<nat>)
    | MkCalendar(body: Bytes)
    | SchedulePost(recipients: seq<Bytes>)
    | Put(expected: Revision)

  function StatusOnly(status: nat): WireResponse {
    WireResponse(status, [], [])
  }

  /** A need that carries nothing of the request but its verb and its URI. */
  function RequestNeed(code: string, request: WireRequest): ServerNeed {
    ServerNeed(code, request.verb, request.uri, [], [], None, None, None)
  }

  function StorageNeed(w: Workflow, request: WireRequest): ServerNeed {
    match w
    case PropFind => RequestNeed("caldav.discovery.properties", request)
    case CalendarQuery => RequestNeed("caldav.query.resources", request)
    case SyncCollection(token, limit) => RequestNeed("caldav.sync.changes", request).(token := token, limit := limit)
    case MkCalendar(body) => RequestNeed("caldav.mkcalendar.create", request).(body := body)
    case SchedulePost(recipients) => RequestNeed("caldav.schedule.deliver", request).(recipients := recipients)
    case Put(revision) => RequestNeed("caldav.resource.write", request).(revision := Some(revision))
  }

  function AuthorizationNeed(request: WireRequest): ServerNeed {
    RequestNeed("caldav.authorize", request)
  }

  /** The media type of a rendered body, in ASCII. */
  const XML_TYPE: Bytes := [97, 112, 112, 108, 105, 99, 97, 116, 105, 111, 110, 47, 120, 109, 108, 59, 32,
                             99, 104, 97, 114, 115, 101, 116, 61, 117, 116, 102, 45, 56]

  /** A rendered body as the response it is sent in. */
  function Rendered(status: nat, body: Result<Bytes, ErrorCode>): Result<WireResponse, ErrorCode> {
    match body
    case Err(e) => Err(e)
    case Ok(octets) => Ok(WireResponse(status, [("Content-Type", XML_TYPE)], octets))
  }

  function SyncAnswer(limit: Option<nat>, result: SyncResult, render: Renderers): Result<WireResponse, ErrorCode> {
    if limit.Some? && limit.value < |result.changes| then Err("icalkit.caldav.sync-response-limit")
    else if result.token.None? then Err("icalkit.caldav.sync-response-invalid")
    else Rendered(207, render.sync(result))
  }

  function WriteAnswer(uri: Bytes, expected: Revision, stored: Option<Revision>): Result<WireResponse, ErrorCode> {
    match stored
    case None => Ok(StatusOnly(412))
    case Some(held) =>
      if held.uri != uri || held.absent || held.etag.None? then Err("icalkit.caldav.write-result-invalid")
      else Ok(WireResponse(if expected.absent then 201 else 204, [("ETag", held.etag.value)], []))
  }

  /** What answers the storage or delivery need. */
  function StorageAnswer(w: Workflow, request: WireRequest, answer: ServerAnswer, render: Renderers): Result<WireResponse, ErrorCode> {
    match (w, answer)
    case (PropFind, Discovery(properties)) => Rendered(207, render.discovery(properties))
    case (CalendarQuery, Resources(resources)) => Rendered(207, render.query(resources))
    case (SyncCollection(_, limit), Sync(result)) => SyncAnswer(limit, result, render)
    case (MkCalendar(_), Created(created)) => Ok(StatusOnly(if created then 201 else 409))
    case (SchedulePost(recipients), Schedule(deliveries)) =>
      if !AnswersAll(deliveries, recipients) then Err("icalkit.caldav.schedule-response-incomplete")
      else Rendered(200, render.schedule(deliveries))
    case (Put(expected), Written(stored)) => WriteAnswer(request.uri, expected, stored)
    case _ => Err(MISMATCH)
  }

  function Finishing(r: Result<WireResponse, ErrorCode>): Result<ServerStep, ErrorCode> {
    match r
    case Ok(response) => Ok(Done(response))
    case Err(e) => Err(e)
  }

  /** The first responder of every workflow: authorization decides whether anything is asked at all. */
  function Authorize(w: Workflow, request: WireRequest, render: Renderers): ServerResponder {
    (answer: ServerAnswer) =>
      if !answer.Authorized? then Err(MISMATCH)
      else if !answer.granted then Ok(Done(StatusOnly(403)))
      else Ok(Need(StorageNeed(w, request), (later: ServerAnswer) => Finishing(StorageAnswer(w, request, later, render))))
  }

  function Begin(w: Workflow, request: WireRequest, render: Renderers): ServerState {
    Waiting(AuthorizationNeed(request), Authorize(w, request, render))
  }

  /** Start a workflow as an operation. */
  method Handle(w: Workflow, request: WireRequest, render: Renderers, maxAnswerBytes: nat) returns (op: ServerOperation)
    ensures fresh(op) && op.Valid() && op.history == [] && op.start == Begin(w, request, render)
  {
    op := new ServerOperation(AuthorizationNeed(request), Authorize(w, request, render), maxAnswerBytes);
  }

  /** A finished or dead operation stays what it is, whatever it is given. */
  lemma {:induction false} SettledStays(s: ServerState, answers: seq<ServerAnswer>, max: nat)
    requires !s.Waiting?
    ensures Run(s, answers, max) == s
    decreases |answers|
  {
    if answers != [] { SettledStays(s, answers[1..], max); }
  }

  /** The state of a workflow after any run of answers. */
  function Expected(w: Workflow, request: WireRequest, render: Renderers, answers: seq<ServerAnswer>, max: nat): ServerState {
    if answers == [] then Begin(w, request, render)
    else if !answers[0].Authorized? then Dead
    else if !answers[0].granted then Finished(StatusOnly(403))
    else if |answers| == 1 then
      Waiting(StorageNeed(w, request), (later: ServerAnswer) => Finishing(StorageAnswer(w, request, later, render)))
    else if TooLarge(answers[1], max) then Dead
    else
      match StorageAnswer(w, request, answers[1], render)
      case Ok(response) => Finished(response)
      case Err(_) => Dead
  }

  lemma {:induction false} RunIsExpected(w: Workflow, request: WireRequest, render: Renderers, answers: seq<ServerAnswer>, max: nat)
    ensures Run(Begin(w, request, render), answers, max) == Expected(w, request, render, answers, max)
  {
    hide StorageAnswer, StorageNeed;
    if answers != [] {
      var first := Supplied(Begin(w, request, render), answers[0], max).0;
      assert Run(Begin(w, request, render), answers, max) == Run(first, answers[1..], max);
      if !first.Waiting? {
        SettledStays(first, answers[1..], max);
      } else if |answers| > 1 {
        var second := Supplied(first, answers[1], max).0;
        assert answers[1..][0] == answers[1];
        SettledStays(second, answers[1..][1..], max);
      }
    }
  }

  /**
   In every run of every workflow: a storage or delivery need appears only as the answer to a
   granted authorization; a refused one ends in 403 for good; an answer of the wrong kind is the
   end of it; and whatever is decided stays decided.
   */
  lemma {:induction false} AuthorizationComesFirst(w: Workflow, request: WireRequest, render: Renderers, answers: seq<ServerAnswer>, max: nat)
    ensures var s := Run(Begin(w, request, render), answers, max);
      && (s.Waiting? ==> s.need == (if answers == [] then AuthorizationNeed(request) else StorageNeed(w, request)))
      && (s.Waiting? && answers != [] ==> answers == [Authorized(true)])
      && (answers != [] && answers[0] == Authorized(false) ==> s == Finished(WireResponse(403, [], [])))
      && (answers != [] && !answers[0].Authorized? ==> s == Dead)
      && (s.Finished? && s.response != WireResponse(403, [], []) ==> |answers| >= 2 && answers[0] == Authorized(true))
  {
    RunIsExpected(w, request, render, answers, max);
  }

  predicate RightKind(w: Workflow, answer: ServerAnswer) {
    match w
    case PropFind => answer.Discovery?
    case CalendarQuery => answer.Resources?
    case SyncCollection(_, _) => answer.Sync?
    case MkCalendar(_) => answer.Created?
    case SchedulePost(_) => answer.Schedule?
    case Put(_) => answer.Written?
  }

  /** Storage answered with the wrong kind leaves nothing to wait for and nothing to finish. */
  lemma {:induction false} WrongKindIsDead(w: Workflow, request: WireRequest, render: Renderers, answers: seq<ServerAnswer>, max: nat)
    requires |answers| >= 2 && answers[0] == Authorized(true) && !RightKind(w, answers[1])
    ensures Run(Begin(w, request, render), answers, max) == Dead
  {
    RunIsExpected(w, request, render, answers, max);
  }

  /**
   A scheduling workflow that answers 200 was authorized, and was given exactly one delivery for
   each requested recipient and none for anyone else.
   */
  lemma {:induction false} ScheduleAnswersEveryRecipient(
    recipients: seq<Bytes>, request: WireRequest, render: Renderers, answers: seq<ServerAnswer>, max: nat)
    requires Distinct(recipients)
    ensures var s := Run(Begin(SchedulePost(recipients), request, render), answers, max);
      s.Finished? && s.response.status == 200 ==>
        && |answers| >= 2 && answers[0] == Authorized(true) && answers[1].Schedule?
        && multiset(Recipients(answers[1].deliveries)) == multiset(recipients)
  {
    RunIsExpected(SchedulePost(recipients), request, render, answers, max);
    var s := Run(Begin(SchedulePost(recipients), request, render), answers, max);
    if s.Finished? && s.response.status == 200 {
      AnswersAllOnce(answers[1].deliveries, recipients);
    }
  }

  /** What a conditional write answers: 412 for a lost race, 201 or 204 for the state it replaced, with the new tag. */
  lemma {:induction false} WriteStatus(request: WireRequest, expected: Revision, render: Renderers, answers: seq<ServerAnswer>, max: nat)
    ensures var s := Run(Begin(Put(expected), request, render), answers, max);
      s.Finished? && s.response.status != 403 ==>
        && |answers| >= 2 && answers[0] == Authorized(true) && answers[1].Written?
        && match answers[1].stored
           case None => s.response == WireResponse(412, [], [])
           case Some(held) =>
             && held.uri == request.uri && !held.absent && held.etag.Some?
             && s.response == WireResponse(if expected.absent then 201 else 204, [("ETag", held.etag.value)], [])
  {
    RunIsExpected(Put(expected), request, render, answers, max);
  }

  /** What every workflow asks for: leave first, then its own kind of data, with what the request says of it. */
  lemma {:induction false} NeedsAre(w: Workflow, request: WireRequest, render: Renderers, max: nat)
    ensures var asked := Run(Begin(w, request, render), [], max);
      var granted := Run(Begin(w, request, render), [Authorized(true)], max);
      && asked.Waiting? && asked.need.code == "caldav.authorize"
      && asked.need.verb == request.verb && asked.need.uri == request.uri
      && granted.Waiting? && granted.need.verb == request.verb && granted.need.uri == request.uri
      && granted.need.body == (if w.MkCalendar? then w.body else [])
      && granted.need.recipients == (if w.SchedulePost? then w.recipients else [])
      && granted.need.revision == (if w.Put? then Some(w.expected) else None)
      && granted.need.token == (if w.SyncCollection? then w.token else None)
      && granted.need.limit == (if w.SyncCollection? then w.limit else None)
      && granted.need.code == match w
         case PropFind => "caldav.discovery.properties"
         case CalendarQuery => "caldav.query.resources"
         case SyncCollection(_, _) => "caldav.sync.changes"
         case MkCalendar(_) => "caldav.mkcalendar.create"
         case SchedulePost(_) => "caldav.schedule.deliver"
         case Put(_) => "caldav.resource.write"
  {
    RunIsExpected(w, request, render, [], max);
    RunIsExpected(w, request, render, [Authorized(true)], max);
  }

  /** Leave was given and storage has answered; what comes after cannot change the outcome. */
  predicate Answered(answers: seq<ServerAnswer>) {
    |answers| >= 2 && answers[0] == Authorized(true)
  }

  /** A calendar that was created is answered 201, one that was not 409, and nothing else finishes the request. */
  lemma {:induction false} MkCalendarStatus(body: Bytes, request: WireRequest, render: Renderers, answers: seq<ServerAnswer>, max: nat)
    ensures var s := Run(Begin(MkCalendar(body), request, render), answers, max);
      && (s.Finished? && s.response.status != 403 ==> Answered(answers) && answers[1].Created?)
      && (Answered(answers) && answers[1].Created? ==>
          s == Finished(WireResponse(if answers[1].created then 201 else 409, [], [])))
  {
    RunIsExpected(MkCalendar(body), request, render, answers, max);
  }

  /** How a rendered body ends the request: as it was rendered, in XML, or, if it cannot be, with no answer at all. */
  predicate EndsAs(s: ServerState, status: nat, body: Result<Bytes, ErrorCode>) {
    match body
    case Ok(octets) => s == Finished(WireResponse(status, [("Content-Type", Ascii("application/xml; charset=utf-8"))], octets))
    case Err(_) => s == Dead
  }

  lemma {:induction false} XmlType()
    ensures XML_TYPE == Ascii("application/xml; charset=utf-8")
  {
    var text := "application/xml; charset=utf-8";
    assert |XML_TYPE| == |text|;
    assert forall i | 0 <= i < |text| :: XML_TYPE[i] == text[i] as int as octet;
  }

  /** What discovery and a query are answered: the multistatus body rendered from what storage holds. */
  lemma {:induction false} MultistatusAnswers(w: Workflow, request: WireRequest, render: Renderers, answers: seq<ServerAnswer>, max: nat)
    requires w.PropFind? || w.CalendarQuery?
    ensures var s := Run(Begin(w, request, render), answers, max);
      && (s.Finished? && s.response.status != 403 ==> Answered(answers))
      && (Answered(answers) && w.PropFind? && answers[1].Discovery? ==> EndsAs(s, 207, render.discovery(answers[1].properties)))
      && (Answered(answers) && w.CalendarQuery? && answers[1].Resources? ==> EndsAs(s, 207, render.query(answers[1].resources)))
  {
    XmlType();
    RunIsExpected(w, request, render, answers, max);
  }

  /** Changes past the limit the client set, or without a token for the next time, are no answer. */
  lemma {:induction false} SyncAnswers(
    token: Option<Bytes>, limit: Option<nat>, request: WireRequest, render: Renderers, answers: seq<ServerAnswer>, max: nat)
    ensures var s := Run(Begin(SyncCollection(token, limit), request, render), answers, max);
      && (s.Finished? && s.response.status != 403 ==> Answered(answers) && answers[1].Sync?)
      && (Answered(answers) && answers[1].Sync? ==>
          var result := answers[1].changes;
          if (limit.None? || |result.changes| <= limit.value) && result.token.Some? then EndsAs(s, 207, render.sync(result))
          else s == Dead)
  {
    XmlType();
    RunIsExpected(SyncCollection(token, limit), request, render, answers, max);
  }

  /** Deliveries for exactly the recipients asked are answered 200; any others are no answer. */
  lemma {:induction false} ScheduleAnswers(
    recipients: seq<Bytes>, request: WireRequest, render: Renderers, answers: seq<ServerAnswer>, max: nat)
    requires Distinct(recipients)
    ensures var s := Run(Begin(SchedulePost(recipients), request, render), answers, max);
      && (s.Finished? && s.response.status != 403 ==> Answered(answers) && answers[1].Schedule?)
      && (Answered(answers) && answers[1].Schedule? ==>
          if multiset(Recipients(answers[1].deliveries)) == multiset(recipients)
          then EndsAs(s, 200, render.schedule(answers[1].deliveries))
          else s == Dead)
  {
    RunIsExpected(SchedulePost(recipients), request, render, answers, max);
    XmlType();
    if Answered(answers) && answers[1].Schedule? { AnswersAllIff(answers[1].deliveries, recipients); }
  }

  /** A conditional write that was made, at the URI and with a tag, is answered 201 or 204; one that was not, 412. */
  lemma {:induction false} WriteAnswers(request: WireRequest, expected: Revision, render: Renderers, answers: seq<ServerAnswer>, max: nat)
    requires Answered(answers) && answers[1].Written?
    ensures var s := Run(Begin(Put(expected), request, render), answers, max);
      match answers[1].stored
      case None => s == Finished(WireResponse(412, [], []))
      case Some(held) =>
        if held.uri == request.uri && !held.absent && held.etag.Some?
        then s == Finished(WireResponse(if expected.absent then 201 else 204, [("ETag", held.etag.value)], []))
        else s == Dead
  {
    RunIsExpected(Put(expected), request, render, answers, max);
  }

  // -------------------------------------------------------------------------
  // The client operation
  // -------------------------------------------------------------------------

  type ResponseDecoder<T> = WireResponse -> Result<ClientStep<T>, ErrorCode>

  datatype ClientStep<T> = Ask(request: WireRequest, decoder: ResponseDecoder<T>) | Settled(value: T)

  datatype ClientState<T> = Pending(request: WireRequest, decoder: ResponseDecoder<T>) | Resolved(result: Result<T, ErrorCode>)

  /** What one response does to a pending operation. */
  function Accepted<T>(s: ClientState<T>, response: WireResponse, max: nat): ClientState<T> {
    match s
    case Resolved(_) => s
    case Pending(_, decoder) =>
      if |response.body| > max then Resolved(Err("icalkit.caldav.response-too-large"))
      else
        match decoder(response)
        case Ok(Ask(request, next)) => Pending(request, next)
        case Ok(Settled(value)) => Resolved(Ok(value))
        case Err(e) => Resolved(Err(e))
  }

  /** The state after a whole run of responses. */
  function AcceptedAll<T>(s: ClientState<T>, responses: seq<WireResponse>, max: nat): ClientState<T>
    decreases |responses|
  {
    if responses == [] then s else AcceptedAll(Accepted(s, responses[0], max), responses[1..], max)
  }

  /** A result, once there, is the result after any more responses. */
  lemma {:induction false} ResultStays<T>(s: ClientState<T>, responses: seq<WireResponse>, max: nat)
    requires s.Resolved?
    ensures AcceptedAll(s, responses, max) == s
    decreases |responses|
  {
    if responses != [] { ResultStays(s, responses[1..], max); }
  }

  /**
   The first response that settles decides over every run: what its decoder makes of it, value or
   error, or the refusal of a body past the bound, which no decoder sees.
   */
  lemma {:induction false} FirstSettlementDecides<T>(
    request: WireRequest, decoder: ResponseDecoder<T>, response: WireResponse, later: seq<WireResponse>, max: nat)
    ensures var s := AcceptedAll(Pending(request, decoder), [response] + later, max);
      && (|response.body| > max ==> s == Resolved(Err("icalkit.caldav.response-too-large")))
      && (|response.body| <= max ==>
          match decoder(response)
          case Ok(Settled(value)) => s == Resolved(Ok(value))
          case Err(e) => s == Resolved(Err(e))
          case Ok(Ask(next, decode)) => s == AcceptedAll(Pending(next, decode), later, max))
  {
    assert ([response] + later)[1..] == later;
    var s := Accepted(Pending(request, decoder), response, max);
    if s.Resolved? { ResultStays(s, later, max); }
  }

  class Operation<T> {
    var request: Option<WireRequest>
    var result: Option<Result<T, ErrorCode>>
    var decoder: Option<ResponseDecoder<T>>
    const maxResponseBytes: nat

    constructor (request: WireRequest, decoder: ResponseDecoder<T>, maxResponseBytes: nat)
      ensures Valid() && State() == Pending(request, decoder) && this.maxResponseBytes == maxResponseBytes
    {
      this.request, this.result, this.decoder, this.maxResponseBytes := Some(request), None, Some(decoder), maxResponseBytes;
    }

    /** Exactly one of a pending request, with the decoder of its response, and a result. */
    ghost predicate Valid()
      reads this
    {
      (request.Some? <==> decoder.Some?) && (request.Some? <==> result.None?)
    }

    ghost function State(): ClientState<T>
      reads this
      requires Valid()
    {
      if request.Some? then Pending(request.value, decoder.value) else Resolved(result.value)
    }

    method Accept(response: WireResponse) returns (r: Result<(), ErrorCode>)
      requires Valid()
      modifies this
      ensures Valid() && State() == Accepted(old(State()), response, maxResponseBytes)
      ensures r == if old(State()).Pending? then Ok(()) else Err(UNEXPECTED_RESPONSE)
    {
      if request.None? { return Err(UNEXPECTED_RESPONSE); }
      request := None;
      if decoder.None? { return Err(UNEXPECTED_RESPONSE); }
      var decode := decoder.value;
      decoder := None;
      if |response.body| > maxResponseBytes {
        result := Some(Err("icalkit.caldav.response-too-large"));
        return Ok(());
      }
      match decode(response) {
        case Ok(Ask(next, later)) => request, decoder := Some(next), Some(later);
        case Ok(Settled(value)) => result := Some(Ok(value));
        case Err(e) => result := Some(Err(e));
      }
      return Ok(());
    }

    method Finish() returns (r: Result<T, ErrorCode>)
      requires Valid()
      modifies this
      ensures r == match old(State()) case Resolved(held) => held case Pending(_, _) => Err("icalkit.caldav.operation-incomplete")
    {
      if result.None? { return Err("icalkit.caldav.operation-incomplete"); }
      r := result.value;
      result := None;
    }
  }
}
