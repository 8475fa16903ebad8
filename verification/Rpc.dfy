/** ClientRPCCall and HandleRPCCall over a transport that hands over values as they are, or times out. */
module Rpc {
  import opened Results
  import opened AnyValues
  import opened PvxsData
  import opened Conversion
  import ValueBuilder

  datatype Status =
    | ClientNetworkEncodingError
    | NotConnected
    | ClientNetworkDecodingError
    | ServerNetworkDecodingError
    | ServerNetworkEncodingError

  type Handler = AnyValue -> Result<AnyValue>

  type CreateReply = Status -> AnyValue

  /** CreateRPCReply: error replies are translatable structures that survive the translation. */
  ghost predicate ProperReplies(createReply: CreateReply) {
    forall s: Status ::
      var r := createReply(s);
      WellFormed(r) && r.Struct? && Supported(r) && Norm(r) == r
  }

  /** The handler returns sup-dto values. */
  ghost predicate ProperHandler(handler: Handler) {
    forall v: AnyValue {:trigger handler(v)} :: handler(v).Ok? ==> WellFormed(handler(v).value)
  }

  /** What the server sends when the handler ended like this. */
  function Answer(createReply: CreateReply, reply: Result<AnyValue>): Result<Tree> {
    var tree := if reply.Ok? then ValueBuilder.BuildPvxsValue(reply.value) else Err(reply.error);
    if tree.Err? || tree.value.Null? then ValueBuilder.BuildPvxsValue(createReply(ServerNetworkEncodingError)) else tree
  }

  function HandleRpcCall(handler: Handler, createReply: CreateReply, request: Tree): Result<Tree> {
    var decoded := BuildAnyValue(request);
    if decoded.Err? then ValueBuilder.BuildPvxsValue(createReply(ServerNetworkDecodingError))
    else Answer(createReply, handler(decoded.value))
  }

  /** What the client makes of what the server sent. */
  function Received(createReply: CreateReply, reply: Tree): AnyValue {
    var decoded := BuildAnyValue(reply);
    if reply.Null? || decoded.Err? then createReply(ClientNetworkDecodingError) else decoded.value
  }

  /** The transport answers with a value, or not in time. */
  function ClientRpcCall(rpc: Tree -> Option<Tree>, createReply: CreateReply, request: AnyValue): AnyValue {
    var tree := ValueBuilder.BuildPvxsValue(request);
    if tree.Err? then createReply(ClientNetworkEncodingError)
    else
      match rpc(tree.value)
      case None => createReply(NotConnected)
      case Some(reply) => Received(createReply, reply)
  }

  /** A client connected to a server with this handler. */
  function Call(handler: Handler, createReply: CreateReply, inTime: bool, request: AnyValue): AnyValue {
    ClientRpcCall(
      tree =>
        var answer := HandleRpcCall(handler, createReply, tree);
        if inTime && answer.Ok? then Some(answer.value) else None,
      createReply, request)
  }

  lemma {:induction false} RepliesSurvive(createReply: CreateReply, s: Status)
    requires ProperReplies(createReply)
    ensures var tree := ValueBuilder.BuildPvxsValue(createReply(s));
      tree == Ok(Encode(createReply(s))) && !tree.value.Null? && BuildAnyValue(tree.value) == Ok(createReply(s))
  {
    var r := createReply(s);
    assert WellFormed(r) && r.Struct? && Supported(r) && Norm(r) == r;
    RoundTripsExactly(r);
    SupportedHasSupportedType(r);
    ValueBuilder.BuiltValueIsEncoded(r);
  }

  // ---------------------------------------------------------------------------------------------
  // Each side alone
  // ---------------------------------------------------------------------------------------------

  /** The client against any transport: the stage that fails, or the value of what came back. */
  lemma {:induction false} ClientExactly(rpc: Tree -> Option<Tree>, createReply: CreateReply, request: AnyValue)
    requires WellFormed(request)
    ensures var result := ClientRpcCall(rpc, createReply, request);
      if !Encodable(request) then result == createReply(ClientNetworkEncodingError)
      else
        match rpc(EncodeInto(request, OwnDef(request)))
        case None => result == createReply(NotConnected)
        case Some(reply) => result == if Decodable(reply) then ValueOf(reply) else createReply(ClientNetworkDecodingError)
  {
    EncodesExactly(request);
    if Encodable(request) {
      var answer := rpc(EncodeInto(request, OwnDef(request)));
      if answer.Some? {
        BuildAnyValueExactly(answer.value);
      }
    }
  }

  /** The server against any request, a null one included: always a value that can be sent. */
  lemma {:induction false} ServerExactly(handler: Handler, createReply: CreateReply, request: Tree)
    requires ProperReplies(createReply) && ProperHandler(handler)
    ensures var answer := HandleRpcCall(handler, createReply, request);
      if !request.Null? && !Decodable(request) then answer == Ok(Encode(createReply(ServerNetworkDecodingError)))
      else
        var reply := handler(if request.Null? then Empty else ValueOf(request));
        answer == Ok(if reply.Err? || reply.value.Empty? || !Encodable(reply.value)
                     then Encode(createReply(ServerNetworkEncodingError))
                     else EncodeInto(reply.value, OwnDef(reply.value)))
  {
    BuildAnyValueExactly(request);
    RepliesSurvive(createReply, ServerNetworkDecodingError);
    RepliesSurvive(createReply, ServerNetworkEncodingError);
    var reply := handler(if request.Null? then Empty else ValueOf(request));
    if reply.Ok? {
      EncodesExactly(reply.value);
    }
  }

  // ---------------------------------------------------------------------------------------------
  // What a call returns, for every request, every handler and any transport delay
  // ---------------------------------------------------------------------------------------------

  /** What reaches the caller when the handler was called and ended like this. */
  function Returned(createReply: CreateReply, reply: Result<AnyValue>): AnyValue {
    if reply.Err? || ValueBuilder.BuildPvxsValue(reply.value).Err? || ValueBuilder.BuildPvxsValue(reply.value).value.Null?
    then createReply(ServerNetworkEncodingError)
    else if RoundTrip(reply.value).Err? then createReply(ClientNetworkDecodingError)
    else RoundTrip(reply.value).value
  }

  lemma {:induction false} AnswerIsReturned(createReply: CreateReply, reply: Result<AnyValue>)
    requires ProperReplies(createReply)
    ensures Answer(createReply, reply).Ok?
    ensures Received(createReply, Answer(createReply, reply).value) == Returned(createReply, reply)
  {
    RepliesSurvive(createReply, ServerNetworkEncodingError);
  }

  /**
   Every call ends in exactly one of six ways: the error reply of the first stage that fails, or the
   round trip of what the handler made of the round trip of the request.
   */
  lemma {:induction false} CallLaw(handler: Handler, createReply: CreateReply, inTime: bool, request: AnyValue)
    requires ProperReplies(createReply)
    ensures Call(handler, createReply, inTime, request) ==
      if ValueBuilder.BuildPvxsValue(request).Err? then createReply(ClientNetworkEncodingError)
      else if !inTime then createReply(NotConnected)
      else if RoundTrip(request).Err? then createReply(ServerNetworkDecodingError)
      else Returned(createReply, handler(RoundTrip(request).value))
  {
    RepliesSurvive(createReply, ServerNetworkDecodingError);
    if RoundTrip(request).Ok? {
      AnswerIsReturned(createReply, handler(RoundTrip(request).value));
    }
  }

  /** The reply in terms of its structure. The last case is right exactly if nothing in it is Empty. */
  lemma {:induction false} ReturnedExactly(createReply: CreateReply, reply: Result<AnyValue>)
    requires ProperReplies(createReply) && (reply.Ok? ==> WellFormed(reply.value))
    ensures var result := Returned(createReply, reply);
      if reply.Err? || reply.value.Empty? || !Encodable(reply.value) then
        result == createReply(ServerNetworkEncodingError)
      else if !Solid(reply.value, OwnDef(reply.value)) then
        result == createReply(ClientNetworkDecodingError)
      else
        && result == ValueOf(EncodeInto(reply.value, OwnDef(reply.value)))
        && (result == Norm(reply.value) <==> Filled(reply.value))
  {
    if reply.Ok? {
      EncodesExactly(reply.value);
      RoundTripOutcomes(reply.value);
      RoundTripsExactly(reply.value);
      if !reply.value.Empty? {
        SupportedExactly(reply.value);
      }
    }
  }

  /**
   The call in terms of the structure of request and reply: which stage fails, and that the value that
   comes back otherwise is the handler's in normal form if and only if nothing in it is Empty.
   */
  lemma {:induction false} CallOutcomes(handler: Handler, createReply: CreateReply, inTime: bool, request: AnyValue)
    requires ProperReplies(createReply) && ProperHandler(handler) && WellFormed(request)
    ensures var result := Call(handler, createReply, inTime, request);
      if !Encodable(request) then
        result == createReply(ClientNetworkEncodingError)
      else if !inTime then
        result == createReply(NotConnected)
      else if !request.Empty? && !Solid(request, OwnDef(request)) then
        result == createReply(ServerNetworkDecodingError)
      else
        var received := ValueOf(EncodeInto(request, OwnDef(request)));
        var reply := handler(received);
        && (received == Norm(request) <==> request.Empty? || Filled(request))
        && if reply.Err? || reply.value.Empty? || !Encodable(reply.value) then
             result == createReply(ServerNetworkEncodingError)
           else if !Solid(reply.value, OwnDef(reply.value)) then
             result == createReply(ClientNetworkDecodingError)
           else
             && result == ValueOf(EncodeInto(reply.value, OwnDef(reply.value)))
             && (result == Norm(reply.value) <==> Filled(reply.value))
  {
    CallLaw(handler, createReply, inTime, request);
    EncodesExactly(request);
    RoundTripOutcomes(request);
    RoundTripsExactly(request);
    if !request.Empty? {
      SupportedExactly(request);
    }
    if RoundTrip(request).Ok? {
      ReturnedExactly(createReply, handler(RoundTrip(request).value));
    }
  }

  /** Between supported values the call pair is the handler up to normal form. */
  lemma {:induction false} CallComposes(handler: Handler, createReply: CreateReply, request: AnyValue)
    requires ProperReplies(createReply) && WellFormed(request) && Supported(request)
    ensures var reply, result := handler(Norm(request)), Call(handler, createReply, true, request);
      && (reply.Err? ==> result == createReply(ServerNetworkEncodingError))
      && (reply.Ok? && WellFormed(reply.value) && Supported(reply.value) ==> result == Norm(reply.value))
  {
    CallLaw(handler, createReply, true, request);
    RoundTripsExactly(request);
    var reply := handler(Norm(request));
    if reply.Ok? && WellFormed(reply.value) && Supported(reply.value) {
      ReturnedExactly(createReply, reply);
      SupportedExactly(reply.value);
    }
  }

  /** A reply with an Empty member after a scalar: the caller gets a made-up value, and no error. */
  lemma {:induction false} EmptyMemberIsReplaced(
    handler: Handler, createReply: CreateReply, request: AnyValue, code: ScalarCode, data: Data)
    requires ProperReplies(createReply) && WellFormed(request) && Supported(request) && Fits(code, data)
    requires handler(Norm(request)) == Ok(Struct("", [Member("a", Scalar(code, data)), Member("b", Empty)]))
    ensures var result := Call(handler, createReply, true, request);
      && result == Struct("", [Member("a", Scalar(NormCode(code), data)),
                               Member("b", Scalar(NormCode(code), if code.String? then Text([]) else Number(0)))])
      && result != Norm(handler(Norm(request)).value)
  {
    CallLaw(handler, createReply, true, request);
    RoundTripsExactly(request);
    EmptyMemberComesBack("", "a", "b", code, data);
    var v := handler(Norm(request)).value;
    EncodesExactly(v);
    assert Norm(v).members[1].value == Norm(v.members[1].value);
  }
}
