/** From a burst of request bytes to the reply bytes: decode, dispatch each request, encode. */
module RpcService {
  import opened Wrappers
  import opened Bytes
  import opened TinyPBCodec
  import opened TinyPBCoder
  import opened TinyPBNoise
  import opened TinyPBRoundTrip

  const ERROR_FAILED_DESERIALIZE: int32 := 1000_0003
  const ERROR_FAILED_SERIALIZE: int32 := 1000_0004
  const ERROR_SERVICE_NOT_FOUND: int32 := 1000_0008
  const ERROR_METHOD_NOT_FOUND: int32 := 1000_0009
  const ERROR_PARSE_SERVICE_NAME: int32 := 1000_0010

  const DOT: byte := 46

  /** The bytes of a string literal; the server's texts are plain ASCII, anything else would print as '?'. */
  function Ascii(s: string): (r: seq<byte>)
    ensures |r| == |s| && 0 !in r
    ensures forall k :: 0 <= k < |s| && '\0' < s[k] < '\U{0080}' ==> r[k] == s[k] as int
  {
    seq(|s|, k requires 0 <= k < |s| => if '\0' < s[k] < '\U{0080}' then s[k] as int else 63)
  }

  /** What one service method does with a request: the message types and their parsers are the service's own. */
  datatype CallResult =
    | Undecodable
    | Unserializable(partial: seq<byte>)
    | Reply(data: seq<byte>)

  type Handler = (seq<byte>, seq<byte>) -> CallResult

  datatype Service = Service(fullName: seq<byte>, methods: map<seq<byte>, Handler>)

  type ServiceMap = map<seq<byte>, Service>

  datatype Target = Target(service: seq<byte>, name: seq<byte>)

  function FindFirst(s: seq<byte>, b: byte): (i: nat)
    ensures i <= |s| && b !in s[..i] && (i < |s| ==> s[i] == b)
  {
    if s == [] || s[0] == b then 0 else 1 + FindFirst(s[1..], b)
  }

  function ParseServiceFullName(fullName: seq<byte>): Option<Target> {
    var i := FindFirst(fullName, DOT);
    if fullName == [] || i == |fullName| then None
    else Some(Target(fullName[..i], fullName[i + 1..]))
  }

  lemma {:induction false} FindFirstIs(before: seq<byte>, b: byte, after: seq<byte>)
    requires b !in before
    ensures FindFirst(before + [b] + after, b) == |before|
  {
    if before != [] {
      assert (before + [b] + after)[1..] == before[1..] + [b] + after;
      FindFirstIs(before[1..], b, after);
    }
  }

  /** The split is at the first dot, and there is no other way to read a name. */
  lemma ParseServiceFullNameExactly(fullName: seq<byte>, service: seq<byte>, name: seq<byte>)
    ensures ParseServiceFullName(fullName) == Some(Target(service, name))
            <==> fullName == service + [DOT] + name && DOT !in service
  {
    if fullName == service + [DOT] + name && DOT !in service {
      FindFirstIs(service, DOT, name);
      assert fullName[..|service|] == service && fullName[|service| + 1..] == name;
    }
  }

  function WithError(m: Message, code: int32, info: string): Message {
    m.(errCode := code, errInfo := Ascii(info))
  }

  /** What `dispatch` makes of a response object, given the request. */
  function Dispatched(services: ServiceMap, req: Message, rsp: Message): Message {
    match ParseServiceFullName(req.methodName)
    case None => WithError(rsp, ERROR_PARSE_SERVICE_NAME, "parse sevice name error")
    case Some(target) =>
      if target.service !in services then
        WithError(rsp, ERROR_SERVICE_NOT_FOUND, "parse sevice not found")
      else if target.name !in services[target.service].methods then
        WithError(rsp, ERROR_METHOD_NOT_FOUND, "parse method not found")
      else
        var named := rsp.(methodName := req.methodName, msgId := req.msgId);
        match services[target.service].methods[target.name](req.msgId, req.pbData)
        case Undecodable => WithError(rsp, ERROR_FAILED_DESERIALIZE, "parse sevice failed deserialize")
        case Unserializable(partial) =>
          WithError(named.(pbData := partial), ERROR_FAILED_SERIALIZE, "parse sevice failed serialize")
        case Reply(data) => named.(pbData := data, errCode := 0)
  }

  /** The request gets as far as the service's own code. */
  predicate Called(services: ServiceMap, req: Message) {
    var parsed := ParseServiceFullName(req.methodName);
    && parsed.Some? && parsed.value.service in services
    && parsed.value.name in services[parsed.value.service].methods
    && services[parsed.value.service].methods[parsed.value.name](req.msgId, req.pbData) != Undecodable
  }

  /** The request gets as far as the code of this service. */
  predicate CalledAt(services: ServiceMap, req: Message, service: seq<byte>) {
    Called(services, req) && ParseServiceFullName(req.methodName).value.service == service
  }

  /** Some method of the service makes sense of some request. */
  ghost predicate MakesSense(service: Service) {
    exists name, id, data :: name in service.methods && service.methods[name](id, data) != Undecodable
  }

  /** A registered service that answers at all can be called exactly when the name it is registered under has no dot:
      one inside a protobuf package never is. */
  lemma ServiceReachable(services: ServiceMap, service: seq<byte>)
    requires service in services
    ensures (exists req :: CalledAt(services, req, service)) <==> MakesSense(services[service]) && DOT !in service
  {
    if req :| CalledAt(services, req, service) {
      var name := ParseServiceFullName(req.methodName).value.name;
      ParseServiceFullNameExactly(req.methodName, service, name);
      assert services[service].methods[name](req.msgId, req.pbData) != Undecodable;
    }
    if MakesSense(services[service]) && DOT !in service {
      var methods := services[service].methods;
      var name, id, data :| name in methods && methods[name](id, data) != Undecodable;
      ParseServiceFullNameExactly(service + [DOT] + name, service, name);
      assert CalledAt(services, Message(id, service + [DOT] + name, 0, [], data), service);
    }
  }

  /** What `registerService` means for requests: those that name the service, by the part before their first dot, go to
      the service registered last under that name, as if no other had ever been there; all others go where they went. */
  lemma RegistrationTakesOver(services: ServiceMap, service: Service, req: Message, rsp: Message)
    ensures var parsed := ParseServiceFullName(req.methodName);
      Dispatched(services[service.fullName := service], req, rsp)
      == Dispatched(if parsed.Some? && parsed.value.service == service.fullName
                    then map[service.fullName := service] else services, req, rsp)
  {
    hide Ascii, ParseServiceFullName;
  }

  const BLANK := Message([], [], 0, [], [])

  function Replies(services: ServiceMap, reqs: seq<Message>): (rs: seq<Message>)
    ensures |rs| == |reqs|
    ensures forall k :: 0 <= k < |reqs| ==> rs[k] == Dispatched(services, reqs[k], BLANK)
  {
    seq(|reqs|, k requires 0 <= k < |reqs| => Dispatched(services, reqs[k], BLANK))
  }

  lemma ErrorTexts()
    ensures IsText(Ascii("parse sevice name error"), INFO_CAPACITY)
    ensures IsText(Ascii("parse sevice not found"), INFO_CAPACITY)
    ensures IsText(Ascii("parse method not found"), INFO_CAPACITY)
    ensures IsText(Ascii("parse sevice failed deserialize"), INFO_CAPACITY)
    ensures IsText(Ascii("parse sevice failed serialize"), INFO_CAPACITY)
  {
  }

  lemma ReplyInDomain(services: ServiceMap, req: Message)
    requires InDomain(req)
    ensures InDomain(Dispatched(services, req, BLANK))
  {
    hide Ascii;
    ErrorTexts();
  }

  // ------------------------------------------------------------------ what the client is told

  /** The request names a method of a service: the part before the first dot, and the part behind it. */
  predicate Addresses(req: Message, service: seq<byte>, name: seq<byte>) {
    DOT !in service && req.methodName == service + [DOT] + name
  }

  /** A reply to a request that did not get to its service. */
  predicate ErrorReply(rsp: Message, code: int32, info: string) {
    && rsp.msgId == [49, 50, 51, 52, 53, 54, 55, 56, 57] && rsp.methodName == [] && rsp.pbData == []
    && rsp.errCode == code && rsp.errInfo == Ascii(info)
  }

  /** And one to a request that did. */
  predicate ServedReply(rsp: Message, req: Message, code: int32, info: string, data: seq<byte>) {
    && rsp.msgId == (if req.msgId == [] then [49, 50, 51, 52, 53, 54, 55, 56, 57] else req.msgId)
    && rsp.methodName == req.methodName && rsp.pbData == data
    && rsp.errCode == code && rsp.errInfo == Ascii(info)
  }

  /** The reply to a request for method `name` of `service`, from the map and the method's own function. */
  predicate AnswerOf(services: ServiceMap, req: Message, rsp: Message, service: seq<byte>, name: seq<byte>) {
    if service !in services then ErrorReply(rsp, 1000_0008, "parse sevice not found")
    else if name !in services[service].methods then ErrorReply(rsp, 1000_0009, "parse method not found")
    else
      match services[service].methods[name](req.msgId, req.pbData)
      case Undecodable => ErrorReply(rsp, 1000_0003, "parse sevice failed deserialize")
      case Unserializable(partial) => ServedReply(rsp, req, 1000_0004, "parse sevice failed serialize", partial)
      case Reply(data) => ServedReply(rsp, req, 0, "", data)
  }

  /** `rsp`, as the client reads it, answers `req`. */
  ghost predicate Answers(services: ServiceMap, req: Message, rsp: Message) {
    && (DOT !in req.methodName ==> ErrorReply(rsp, 1000_0010, "parse sevice name error"))
    && (forall service, name :: Addresses(req, service, name) ==> AnswerOf(services, req, rsp, service, name))
  }

  ghost predicate AllAnswered(services: ServiceMap, reqs: seq<Message>, rsps: seq<Message>) {
    |rsps| == |reqs| && forall k :: 0 <= k < |reqs| ==> Answers(services, reqs[k], rsps[k])
  }

  lemma {:induction false} NotFound(s: seq<byte>, b: byte)
    requires b !in s
    ensures FindFirst(s, b) == |s|
  {
    if s != [] {
      NotFound(s[1..], b);
    }
  }

  /** What is read back of a dispatched response answers the request. */
  lemma DispatchedAnswers(services: ServiceMap, req: Message, rsp: Message)
    requires ReadBack(rsp, Dispatched(services, req, BLANK))
    ensures Answers(services, req, rsp)
  {
    hide Ascii;
    assert Ascii("") == [] by {
      NoText();
    }
    if DOT !in req.methodName {
      NotFound(req.methodName, DOT);
    }
    forall service, name | Addresses(req, service, name) ensures AnswerOf(services, req, rsp, service, name) {
      ParseServiceFullNameExactly(req.methodName, service, name);
      hide ParseServiceFullName;
    }
  }

  lemma NoText()
    ensures Ascii("") == []
  {
  }

  /** End to end, for every buffer the server can decode: the client that decodes the reply gets one response for
      each request, in order, the `k`-th answering the `k`-th request. */
  lemma ServeRoundTrip(services: ServiceMap, buffer: seq<byte>)
    requires |buffer| <= INT32_MAX && TinyPBCodec.Decode(buffer).Returned?
    requires var replies := Replies(services, TinyPBCodec.Decode(buffer).messages);
      AllEncodable(replies) && |EncodeAll(replies)| <= INT32_MAX
    ensures var reqs := TinyPBCodec.Decode(buffer).messages;
      var outcome := TinyPBCodec.Decode(EncodeAll(Replies(services, reqs)));
      outcome.Returned? && AllAnswered(services, reqs, outcome.messages)
  {
    hide TinyPBCodec.Decode, EncodeAll, Dispatched, Answers, ReadBack;
    var reqs := TinyPBCodec.Decode(buffer).messages;
    DecodedInDomain(buffer);
    var replies := Replies(services, reqs);
    forall r | r in replies ensures InDomain(r) {
      var k :| 0 <= k < |replies| && replies[k] == r;
      assert reqs[k] in reqs;
      ReplyInDomain(services, reqs[k]);
    }
    DecodeEncode(replies);
    var rsps := TinyPBCodec.Decode(EncodeAll(replies)).messages;
    forall k | 0 <= k < |reqs| ensures Answers(services, reqs[k], rsps[k]) {
      assert ReadBack(rsps[k], replies[k]);
      DispatchedAnswers(services, reqs[k], rsps[k]);
    }
  }

  /** The same from the client's side: the requests it encoded, with any noise around them that opens nothing. */
  lemma CallRoundTrip(services: ServiceMap, reqs: seq<Message>, gaps: seq<seq<byte>>)
    requires |gaps| == |reqs| + 1 && AllEncodable(reqs) && AllInDomain(reqs)
    requires |Stream(reqs, gaps)| <= INT32_MAX && GapsOpenNothing(CString(Stream(reqs, gaps)), reqs, gaps, 0)
    requires var replies := Replies(services, CanonAll(reqs));
      AllEncodable(replies) && |EncodeAll(replies)| <= INT32_MAX
    ensures ReturnedAs(TinyPBCodec.Decode(Stream(reqs, gaps)), reqs)
    ensures var got := TinyPBCodec.Decode(Stream(reqs, gaps)).messages;
      && AllEncodable(Replies(services, got))
      && var outcome := TinyPBCodec.Decode(EncodeAll(Replies(services, got)));
         outcome.Returned? && AllAnswered(services, got, outcome.messages)
  {
    hide TinyPBCodec.Decode, EncodeAll, Dispatched, Stream, GapsOpenNothing, AllAnswered, AllReadBack;
    DecodeNoisy(reqs, gaps);
    CanonReadsBack(CanonAll(reqs), reqs);
    ServeRoundTrip(services, Stream(reqs, gaps));
  }

  /** A client can match the reply it reads to its request by id exactly when the request carried an id and reached the
      service, or carried the default id anyway: the early error replies all go out under "123456789". */
  lemma ReplyIsCorrelated(services: ServiceMap, req: Message, rsp: Message)
    requires ReadBack(rsp, Dispatched(services, req, BLANK))
    ensures rsp.msgId == req.msgId
            <==> (Called(services, req) && req.msgId != []) || req.msgId == [49, 50, 51, 52, 53, 54, 55, 56, 57]
  {
    hide Ascii;
  }

  class RpcDispatcher {
    var serviceMap: ServiceMap

    constructor ()
      ensures serviceMap == map[]
    {
      serviceMap := map[];
    }

    method RegisterService(service: Service)
      modifies this
      ensures serviceMap == old(serviceMap)[service.fullName := service]
    {
      serviceMap := serviceMap[service.fullName := service];
    }

    method SetTinyPBError(msg: TinyPBProtocol, errCode: int32, errInfo: string)
      modifies msg
      ensures msg.Value() == WithError(old(msg.Value()), errCode, errInfo) && msg.errInfoLen == |msg.errInfo|
      ensures msg.pkLen == old(msg.pkLen) && msg.msgIdLen == old(msg.msgIdLen)
              && msg.methodNameLen == old(msg.methodNameLen) && msg.parseSuccess == old(msg.parseSuccess)
              && msg.checkSum == old(msg.checkSum)
    {
      msg.errCode := errCode;
      msg.errInfo := Ascii(errInfo);
      msg.errInfoLen := |errInfo|;
    }

    /** `dispatch`; a blank response becomes one that answers the request. */
    method Dispatch(request: TinyPBProtocol, response: TinyPBProtocol)
      requires request != response
      modifies response
      ensures response.Value() == Dispatched(serviceMap, request.Value(), old(response.Value()))
      ensures old(response.Value()) == BLANK ==>
        forall rsp :: ReadBack(rsp, response.Value()) ==> Answers(serviceMap, request.Value(), rsp)
    {
      hide Dispatched, Answers, ReadBack;
      ghost var blank := response.Value() == BLANK;
      Respond(request, response);
      if blank {
        forall rsp | ReadBack(rsp, response.Value()) ensures Answers(serviceMap, request.Value(), rsp) {
          DispatchedAnswers(serviceMap, request.Value(), rsp);
        }
      }
    }

    method Respond(request: TinyPBProtocol, response: TinyPBProtocol)
      requires request != response
      modifies response
      ensures response.Value() == Dispatched(serviceMap, request.Value(), old(response.Value()))
    {
      hide Ascii, ParseServiceFullName;
      var parsed := ParseServiceFullName(request.methodName);
      if parsed == None {
        SetTinyPBError(response, ERROR_PARSE_SERVICE_NAME, "parse sevice name error");
        return;
      }
      var target := parsed.value;
      if target.service !in serviceMap {
        SetTinyPBError(response, ERROR_SERVICE_NOT_FOUND, "parse sevice not found");
        return;
      }
      var service := serviceMap[target.service];
      if target.name !in service.methods {
        SetTinyPBError(response, ERROR_METHOD_NOT_FOUND, "parse method not found");
        return;
      }
      var result := service.methods[target.name](request.msgId, request.pbData);
      if result == Undecodable {
        SetTinyPBError(response, ERROR_FAILED_DESERIALIZE, "parse sevice failed deserialize");
        return;
      }
      response.methodName := request.methodName;
      response.msgId := request.msgId;
      if result.Unserializable? {
        response.pbData := result.partial;
        SetTinyPBError(response, ERROR_FAILED_SERIALIZE, "parse sevice failed serialize");
        return;
      }
      response.pbData := result.data;
      response.errCode := 0;
    }
  }

  class RPCServer {
    const dispatcher: RpcDispatcher

    constructor (dispatcher: RpcDispatcher)
      ensures this.dispatcher == dispatcher
    {
      this.dispatcher := dispatcher;
    }

    /** The loop over the requests: one fresh response object each, in order. */
    method DispatchAll(result: seq<TinyPBProtocol>) returns (replyMessages: seq<TinyPBProtocol>)
      ensures forall k :: 0 <= k < |replyMessages| ==> fresh(replyMessages[k])
      ensures Values(replyMessages) == Replies(dispatcher.serviceMap, Values(result))
    {
      hide Dispatched;
      replyMessages := [];
      ghost var reqs := Values(result);
      for i := 0 to |result|
        invariant |replyMessages| == i
        invariant Values(result) == reqs
        invariant forall k :: 0 <= k < i ==> fresh(replyMessages[k]) && replyMessages[k] !in result
        invariant forall k :: 0 <= k < i ==>
          replyMessages[k].Value() == Dispatched(dispatcher.serviceMap, reqs[k], BLANK)
      {
        var response := new TinyPBProtocol();
        dispatcher.Dispatch(result[i], response);
        replyMessages := replyMessages + [response];
      }
    }

    /** `OnMessage`; `sent` is what it hands to `Connection::send` when `decode` comes back to it. */
    method OnMessage(message: seq<byte>) returns (ending: Ending, sent: seq<byte>)
      requires |message| <= INT32_MAX
      requires TinyPBCodec.Decode(message).Returned?
        ==> AllEncodable(Replies(dispatcher.serviceMap, TinyPBCodec.Decode(message).messages))
      ensures match TinyPBCodec.Decode(message)
        case Returned(reqs) => ending == Return && sent == EncodeAll(Replies(dispatcher.serviceMap, reqs))
        case Spins => ending == Spin
        case Faults => ending == Fault
      ensures TinyPBCodec.Decode(message).Returned? && |sent| <= INT32_MAX ==>
        var outcome := TinyPBCodec.Decode(sent);
        outcome.Returned? && AllAnswered(dispatcher.serviceMap, TinyPBCodec.Decode(message).messages, outcome.messages)
    {
      hide TinyPBCodec.Decode, EncodeAll, Replies, Values, AllAnswered;
      var result;
      ending, result := TinyPBCoder.Decode(message);
      if ending != Return {
        return ending, [];
      }
      assert TinyPBCodec.Decode(message) == Returned(Values(result));
      var replyMessages := DispatchAll(result);
      sent := Encode(replyMessages);
      if |sent| <= INT32_MAX {
        ServeRoundTrip(dispatcher.serviceMap, message);
      }
    }
  }
}
