/** A remote call, end to end: the arguments a client passes, two passes through
    text and framing, the server's dispatch, and the result the client hands out. */
module EndToEnd {
  import opened Json
  import opened Parser
  import opened NormalForm
  import opened NulFreeText
  import opened Framing
  import opened BestEffort
  import opened Attempts
  import opened Rpc
  import opened Connection
  import opened Alignment
  import opened Matching
  import opened Overrun
  import RoundTrip
  import Runs
  import S = Server

  // --------------------------------------------- the server behind the world

  /** The world of a client whose server runs `s`. Nothing is said of requests that
      do not fit the server's buffer. */
  ghost predicate Serves(w: World, s: Service)
  {
    forall i: nat, p: string | S.RequestText(p) && HEADER_SIZE + |p| <= S.SERVER_BUFFER :: w.serve(i, p) == S.Reply(s, p)
  }

  lemma {:induction false} RepliesAreAnswers(w: World, s: Service, requests: seq<string>)
    requires Serves(w, s) && forall r | r in requests :: S.RequestText(r) && HEADER_SIZE + |r| <= S.SERVER_BUFFER
    ensures Replies(w, requests) == S.Answers(s, requests)
    decreases |requests|
  {
    hide S.RequestText, S.Reply, Frame;
    if requests != [] {
      var n := |requests| - 1;
      RepliesAreAnswers(w, s, requests[..n]);
      assert S.RequestText(requests[n]);
    }
  }

  /** The two machines meet: whatever the server's loop, fed with what the client
      wrote, has written so far is a prefix of the stream the client reads from;
      and on an attentive kernel of the server's it is that stream. */
  lemma ServerFillsInbound(w: World, s: Service, p: S.Peer)
    requires Serves(w, s) && S.PeerOk(p)
    ensures var out := S.Serve(s, p, S.Wire("", 0, 0)).1.out;
      && out <= Inbound(w, p.input)
      && (S.Attentive(p, 0) ==> out == Inbound(w, p.input))
  {
    hide S.RequestText, S.Serve, Frames, Rest;
    S.FreshIsCaught(s, p, 0);
    S.ServeRefines(s, p, S.Wire("", 0, 0));
    RepliesAreAnswers(w, s, Frames(p.input));
    if S.Attentive(p, 0) {
      S.SteadyAnswersAll(s, p, S.Wire("", 0, 0));
    }
  }

  // ------------------------------------------------------------------- one call

  /** What a caller asks for. */
  datatype Ask = Ask(name: string, args: seq<Plain>, kind: Kind)

  function RequestValue(token: int, ask: Ask): Value { MakeRequest(token, ask.name, ask.args) }

  /** What the method does with the arguments themselves, no text in between. */
  function Direct(s: Service, ask: Ask): Answer
    requires DecimalFree(Array(ask.args))
  {
    NetCall(s, ask.name, Array(ask.args))
  }

  /** What the caller should get: the converted result of the method, or nothing
      when the call failed in any way. */
  function Expected(s: Service, ask: Ask): Result
    requires DecimalFree(Array(ask.args))
  {
    match Direct(s, ask)
    case Returned(v) => (match Convert(ask.kind, v) case Some(u) => Yields(u) case None => Raises)
    case _ => Nullopt
  }

  function ResponseValue(s: Service, token: int, ask: Ask): Value
    requires DecimalFree(Array(ask.args))
  {
    Object(Respond(token, Direct(s, ask)))
  }

  /** Within the domain of the round trip; the request fits the server's buffer, the
      response a length field. */
  ghost predicate Askable(s: Service, token: int, ask: Ask)
  {
    && -MAX_INT <= token <= MAX_INT && EscapeClosed(ask.name) && Portable(Array(ask.args))
    && PortableAnswer(Direct(s, ask))
    && DecimalFree(RequestValue(token, ask)) && HEADER_SIZE + |Dump(RequestValue(token, ask))| <= S.SERVER_BUFFER
    && DecimalFree(ResponseValue(s, token, ask)) && |Dump(ResponseValue(s, token, ask))| < HEADER_LIMIT
  }

  /** The text of the request. */
  ghost function Payload(s: Service, token: int, ask: Ask): string
    requires Askable(s, token, ask)
  {
    Dump(RequestValue(token, ask))
  }

  /** Both callbacks let the call through. */
  predicate Accepted(s: Service, token: int, ask: Ask)
    requires DecimalFree(Array(ask.args))
  {
    s.acceptsRequest(RequestValue(token, ask)) && s.acceptsResponse(ResponseValue(s, token, ask))
  }

  /** The server decodes the very request built, and answers it, or drops it when
      a callback says so. */
  lemma RequestDecoded(s: Service, token: int, ask: Ask)
    requires Askable(s, token, ask)
    ensures var payload := Dump(RequestValue(token, ask));
      && S.RequestText(payload) && Sent(payload) == payload && HEADER_SIZE + |payload| <= S.SERVER_BUFFER
      && S.Reply(s, payload) == if Accepted(s, token, ask) then Some(Dump(ResponseValue(s, token, ask))) else None
  {
    hide ParseValue, Dump, Normal, DecimalFree, Respond, NetCall, Put;
    var request := RequestValue(token, ask);
    RequestPortable(token, ask.name, ask.args);
    RequestFields(token, ask.name, ask.args);
    RoundTrip.DumpParsesBack(request, "");
    assert Dump(request) + "" == Dump(request);
    SentWhole(Dump(request));
  }

  /** The caller is handed this result: the response decodes to it. */
  ghost predicate Gives(kind: Kind, outcome: Connection.Outcome, result: Result)
  {
    && outcome.Response?
    && var r := ParseValue(outcome.memory, 0);
       r.Ok? && DecimalFree(r.v) && MakeResult(kind, r.v) == result
  }

  /** The response carries this id, which the client never looks at. */
  ghost predicate Identifies(outcome: Connection.Outcome, token: int)
  {
    && outcome.Response?
    && var r := ParseValue(outcome.memory, 0);
       r.Ok? && r.v.Object? && Get(r.v.members, "id") == Some(Int(token))
  }

  /** The client decodes the very response built, whatever its buffer holds
      behind it, and makes of it what was expected. */
  lemma ResponseDecoded(s: Service, token: int, ask: Ask, memory: string)
    requires Askable(s, token, ask) && Sent(Dump(ResponseValue(s, token, ask))) <= memory
    ensures Gives(ask.kind, Response(memory), Expected(s, ask)) && Identifies(Response(memory), token)
  {
    hide ParseValue, Dump, Normal, DecimalFree, Respond, NetCall, MakeResult;
    var response := ResponseValue(s, token, ask);
    ResponsePortable(token, Direct(s, ask));
    SentWhole(Dump(response));
    var stale := memory[|Dump(response)|..];
    assert memory == Dump(response) + stale;
    RoundTrip.DumpParsesBack(response, stale);
    ResultOfResponse(token, Direct(s, ask), ask.kind);
    ResponseShape(token, Direct(s, ask));
  }

  /** A call that yields a response hid no progress on the way. */
  lemma ResponseIsClean(w: World, c: Client, payload: string)
    requires ClientOk(w, c) && Exchange(w, c, payload).0.Response?
    ensures CleanExchange(w, c, payload)
  {
    hide Run, Inbound, ContentLength, Sent, Header;
  }

  /** A call that yields a response was clean throughout. */
  lemma AnswerKeepsInv(w: World, c: Client, payload: string)
    requires ClientOk(w, c) && Inv(w, c) && CleanCheck(w, c) && Call(w, c, payload).0.Response?
    ensures CleanCall(w, c, payload) && Inv(w, Call(w, c, payload).1)
    ensures Answered(w, |Frames(c.wire.out)|, Sent(payload), Call(w, c, payload).0)
  {
    hide Check, Exchange, CleanCheck, CleanExchange, Inv, Answered;
    var (_, c1) := Check(w, c);
    ResponseIsClean(w, c1.(token := c1.token + 1), payload);
    Runs.CallAligned(w, c, payload);
  }

  /** The server's answer to this very request gives what was expected and carries
      its id. */
  lemma AnswerGives(w: World, s: Service, n: nat, token: int, ask: Ask, outcome: Connection.Outcome)
    requires Serves(w, s) && Askable(s, token, ask) && outcome.Response?
    requires Answered(w, n, Sent(Payload(s, token, ask)), outcome)
    ensures Gives(ask.kind, outcome, Expected(s, ask)) && Identifies(outcome, token)
  {
    hide Gives, Identifies, Expected, Dump, Direct, EscapeClosed, PortableAnswer, S.Reply, S.RequestText, Accepted,
      RequestValue, ResponseValue;
    RequestDecoded(s, token, ask);
    var payload := Payload(s, token, ask);
    assert w.serve(n, payload) == S.Reply(s, payload);
    ResponseDecoded(s, token, ask, outcome.memory);
  }

  /** If there is a response, it is this request's own and gives what was expected. */
  ghost predicate Own(s: Service, token: int, ask: Ask, outcome: Connection.Outcome)
    requires Askable(s, token, ask)
  {
    outcome.Response? ==> Gives(ask.kind, outcome, Expected(s, ask)) && Identifies(outcome, token)
  }

  /** On any kernel, whatever was late, short or abandoned before: a call that
      yields a response yields what the method makes of the arguments, although
      they went through text twice; and it carries this request's id, although ids
      are never compared. */
  lemma RemoteCall(w: World, s: Service, c: Client, ask: Ask)
    requires Serves(w, s) && ClientOk(w, c) && Inv(w, c) && CleanCheck(w, c) && Askable(s, c.token + 1, ask)
    ensures Own(s, c.token + 1, ask, Call(w, c, Payload(s, c.token + 1, ask)).0)
  {
    hide Gives, Identifies, Expected, Askable, Answered, Call, CleanCheck, Inv, Serves, Payload, Frames;
    var payload := Payload(s, c.token + 1, ask);
    if Call(w, c, payload).0.Response? {
      AnswerKeepsInv(w, c, payload);
      AnswerGives(w, s, |Frames(c.wire.out)|, c.token + 1, ask, Call(w, c, payload).0);
    }
  }

  // ------------------------------------------------------------ any run of calls

  /** Every request that can come up: a call uses the next token or, when the
      connection is not healthy, none. */
  ghost predicate Domain(s: Service, token: int, n: nat, asks: seq<Ask>)
  {
    |asks| <= n && forall i, t | 0 <= i < |asks| && token < t <= token + n :: Askable(s, t, asks[i])
  }

  lemma DomainStep(s: Service, token: int, n: nat, asks: seq<Ask>, token': int)
    requires Domain(s, token, n, asks) && asks != [] && token <= token' <= token + 1
    ensures Askable(s, token + 1, asks[0]) && Domain(s, token', n - 1, asks[1..])
  {
    hide Askable;
    forall i, t | 0 <= i < |asks[1..]| && token' < t <= token' + n - 1 ensures Askable(s, t, asks[1..][i]) {
      assert Askable(s, t, asks[i + 1]);
    }
  }

  lemma TokenMoves(w: World, c: Client, payload: string)
    requires ClientOk(w, c)
    ensures c.token <= Call(w, c, payload).1.token <= c.token + 1
  {
    hide CheckLoop, WriteRequest, ReadResponse, HealthOk, WireOk;
  }

  /** A step of a session: what the call yields, and the client after it. */
  ghost function NextCall(w: World, s: Service, c: Client, n: nat, asks: seq<Ask>): (r: (Connection.Outcome, Client))
    requires ClientOk(w, c) && Domain(s, c.token, n, asks) && asks != []
    ensures ClientOk(w, r.1) && n > 0 && Domain(s, r.1.token, n - 1, asks[1..])
    ensures Askable(s, c.token + 1, asks[0]) && r == Call(w, c, Payload(s, c.token + 1, asks[0]))
  {
    DomainStep(s, c.token, n, asks, c.token);
    var r := Call(w, c, Payload(s, c.token + 1, asks[0]));
    TokenMoves(w, c, Payload(s, c.token + 1, asks[0]));
    DomainStep(s, c.token, n, asks, r.1.token);
    r
  }

  /** In every call of the session, a response that arrives is this call's own and
      gives what was expected; as long as the calls are clean. */
  ghost predicate AllMatch(w: World, s: Service, c: Client, n: nat, asks: seq<Ask>)
    requires ClientOk(w, c) && Domain(s, c.token, n, asks)
    decreases |asks|
  {
    asks == [] ||
    var (outcome, c') := NextCall(w, s, c, n, asks);
    Own(s, c.token + 1, asks[0], outcome) && AllMatch(w, s, c', n - 1, asks[1..])
  }

  ghost predicate AllClean(w: World, s: Service, c: Client, n: nat, asks: seq<Ask>)
    requires ClientOk(w, c) && Domain(s, c.token, n, asks)
    decreases |asks|
  {
    asks == [] ||
    var (outcome, c') := NextCall(w, s, c, n, asks);
    CleanCall(w, c, Payload(s, c.token + 1, asks[0])) && AllClean(w, s, c', n - 1, asks[1..])
  }

  /** Over every run of clean calls, each response that arrives is the one made for
      that very request, whatever bytes it holds. */
  lemma {:induction false} EveryCleanResponseMatches(w: World, s: Service, c: Client, n: nat, asks: seq<Ask>)
    requires Serves(w, s) && ClientOk(w, c) && Inv(w, c) && Domain(s, c.token, n, asks) && AllClean(w, s, c, n, asks)
    ensures AllMatch(w, s, c, n, asks)
    decreases |asks|
  {
    hide Call, CleanCheck, CleanExchange, Askable, Dump, Inv, HealthOk, WireOk, Gives, Identifies, Expected, Domain, Payload;
    if asks != [] {
      var (outcome, c') := NextCall(w, s, c, n, asks);
      Runs.CallAligned(w, c, Payload(s, c.token + 1, asks[0]));
      RemoteCall(w, s, c, asks[0]);
      EveryCleanResponseMatches(w, s, c', n - 1, asks[1..]);
    }
  }

  /** No string in the response holds a NUL. */
  ghost predicate NulFreeResponse(s: Service, token: int, ask: Ask)
    requires Askable(s, token, ask)
  {
    NulFreeValue(ResponseValue(s, token, ask))
  }

  lemma ResponseIsText(w: World, s: Service, n: nat, token: int, ask: Ask)
    requires Serves(w, s) && Askable(s, token, ask) && NulFreeResponse(s, token, ask)
    ensures TextAnswer(w, n, Sent(Payload(s, token, ask)))
  {
    hide DumpMembers, Direct, EscapeClosed, PortableAnswer, S.Reply, S.RequestText, Accepted, RequestValue, Respond;
    RequestDecoded(s, token, ask);
    var payload, text := Payload(s, token, ask), Dump(ResponseValue(s, token, ask));
    assert w.serve(n, payload) == S.Reply(s, payload);
    SentWhole(text);
    DumpNulFree(ResponseValue(s, token, ask));
    assert text[0] == '{';
  }

  /** What a run still needs of each call: transfers that are safe, and a response
      that holds no NUL. */
  ghost predicate AllSafe(w: World, s: Service, c: Client, n: nat, asks: seq<Ask>)
    requires ClientOk(w, c) && Domain(s, c.token, n, asks)
    decreases |asks|
  {
    asks == [] ||
    var (outcome, c') := NextCall(w, s, c, n, asks);
    && SafeTransfers(w, c) && NulFreeResponse(s, c.token + 1, asks[0])
    && AllSafe(w, s, c', n - 1, asks[1..])
  }

  /** One call of a client that may have lost its place. */
  lemma LooseCall(w: World, s: Service, c: Client, ask: Ask)
    requires Serves(w, s) && ClientOk(w, c) && LooseInv(w, c) && Askable(s, c.token + 1, ask)
    requires SafeTransfers(w, c) && NulFreeResponse(s, c.token + 1, ask)
    ensures var (outcome, c') := Call(w, c, Payload(s, c.token + 1, ask));
      LooseInv(w, c') && Own(s, c.token + 1, ask, outcome)
  {
    hide Call, SafeTransfers, TextAnswer, Askable, Answered, Dump, LooseInv, HealthOk, WireOk, Gives, Identifies, Expected,
      Payload, Frames, NulFreeResponse, Serves;
    var place := |Frames(c.wire.out)|;
    var payload := Payload(s, c.token + 1, ask);
    ResponseIsText(w, s, place, c.token + 1, ask);
    CallMatches(w, c, payload);
    if Call(w, c, payload).0.Response? { AnswerGives(w, s, place, c.token + 1, ask, Call(w, c, payload).0); }
  }

  // ---------------------------------------------------- what the method is handed

  /** The method is bound, with as many parameters as there are arguments. */
  predicate Bound(s: Service, ask: Ask) { ask.name in s.table && |s.table[ask.name].kinds| == |ask.args| }

  /** The arguments already have the types the method asks for. */
  predicate Typed(s: Service, ask: Ask)
    requires Bound(s, ask)
  {
    forall i | 0 <= i < |ask.args| :: HasKind(s.table[ask.name].kinds[i], ask.args[i])
  }

  /** Each argument converts to the type of the parameter at its place. */
  ghost predicate Converts(s: Service, ask: Ask, args: seq<Value>)
    requires Bound(s, ask)
  {
    |args| == |ask.args| && forall i | 0 <= i < |args| :: Convert(s.table[ask.name].kinds[i], ask.args[i]) == Some(args[i])
  }

  /** A bound method is handed the arguments of the call, converted, each at its own
      place; and when they have the types asked for, those very arguments. */
  lemma BoundMethodRuns(s: Service, ask: Ask)
    requires Bound(s, ask) && DecimalFree(Array(ask.args))
    ensures forall args | Converts(s, ask, args) :: Direct(s, ask) == s.table[ask.name].run(args)
    ensures Typed(s, ask) ==> Direct(s, ask) == s.table[ask.name].run(ask.args)
  {
    hide Convert, Accept, AcceptAll, HasKind;
    var kinds := s.table[ask.name].kinds;
    forall i | 0 <= i < |ask.args| ensures Accept(s.decimals, kinds[i], ask.args[i]) == Convert(kinds[i], ask.args[i]) {
      AcceptConverts(s.decimals, kinds[i], ask.args[i]);
    }
    forall args | Converts(s, ask, args) ensures Direct(s, ask) == s.table[ask.name].run(args) {
      AcceptAllExactly(s.decimals, kinds, ask.args, args);
    }
    if Typed(s, ask) {
      forall i | 0 <= i < |ask.args| ensures Convert(kinds[i], ask.args[i]) == Some(ask.args[i]) {
        ConvertExactly(kinds[i], ask.args[i]);
      }
      assert Converts(s, ask, ask.args);
    }
  }

  /** The result a caller is promised, from what the method does with these arguments
      and nothing else. */
  ghost predicate Promised(answer: Answer, kind: Kind, result: Result)
  {
    match answer
    case Returned(v) =>
      && (HasKind(kind, v) ==> result == Yields(v))
      && (result.Yields? ==> Convert(kind, v) == Some(result.v))
      && (!result.Yields? ==> result == Raises && Convert(kind, v).None?)
    case _ => result == Nullopt
  }

  lemma ExpectedIsPromised(s: Service, ask: Ask)
    requires Bound(s, ask) && DecimalFree(Array(ask.args)) && Typed(s, ask)
    ensures Promised(s.table[ask.name].run(ask.args), ask.kind, Expected(s, ask))
  {
    BoundMethodRuns(s, ask);
    hide Direct, Convert, Bound, Typed;
    if Direct(s, ask).Returned? { ConvertExactly(ask.kind, Direct(s, ask).v); }
  }

  /** Aligned with a clean check to come; or off its place, with safe transfers and a
      response that holds no NUL. */
  ghost predicate OnOrOffTrack(w: World, s: Service, c: Client, ask: Ask)
    requires ClientOk(w, c) && Askable(s, c.token + 1, ask)
  {
    (Inv(w, c) && CleanCheck(w, c)) || (LooseInv(w, c) && SafeTransfers(w, c) && NulFreeResponse(s, c.token + 1, ask))
  }

  /** A response, if there is one, gives what is promised. */
  ghost predicate KeepsPromise(answer: Answer, kind: Kind, outcome: Connection.Outcome)
  {
    outcome.Response? ==> exists result :: Promised(answer, kind, result) && Gives(kind, outcome, result)
  }

  lemma OwnKeepsPromise(s: Service, token: int, ask: Ask, outcome: Connection.Outcome)
    requires Askable(s, token, ask) && Bound(s, ask) && Typed(s, ask) && Own(s, token, ask, outcome)
    ensures KeepsPromise(s.table[ask.name].run(ask.args), ask.kind, outcome)
  {
    ExpectedIsPromised(s, ask);
    hide Gives, Identifies, Expected, Promised, Typed;
  }

  /** Main result in the method's own terms: whatever happened before, a call of a
      bound method with arguments of its types that yields a response yields what the
      method returns for those arguments in that order. */
  lemma BoundCallGives(w: World, s: Service, c: Client, ask: Ask)
    requires ClientOk(w, c) && Askable(s, c.token + 1, ask) && Bound(s, ask) && Typed(s, ask) && Serves(w, s)
    requires OnOrOffTrack(w, s, c, ask)
    ensures KeepsPromise(s.table[ask.name].run(ask.args), ask.kind, Call(w, c, Payload(s, c.token + 1, ask)).0)
  {
    hide Own, KeepsPromise, Askable, Call, CleanCheck, Inv, LooseInv, SafeTransfers, Serves, Payload, Typed, NulFreeResponse,
      HealthOk, WireOk;
    if Inv(w, c) && CleanCheck(w, c) { RemoteCall(w, s, c, ask); } else { LooseCall(w, s, c, ask); }
    OwnKeepsPromise(s, c.token + 1, ask, Call(w, c, Payload(s, c.token + 1, ask)).0);
  }

  /** Main result. Over every run of calls on every kernel, headers split and reads
      hidden as they may be: each response that arrives is the one made for that
      very request. Left to ask for are header writes that do not hide progress,
      drains that stay within their buffer, and responses without a NUL. */
  lemma {:induction false} EveryResponseMatches(w: World, s: Service, c: Client, n: nat, asks: seq<Ask>)
    requires Serves(w, s) && ClientOk(w, c) && LooseInv(w, c) && Domain(s, c.token, n, asks) && AllSafe(w, s, c, n, asks)
    ensures AllMatch(w, s, c, n, asks)
    decreases |asks|
  {
    hide Call, SafeTransfers, Askable, Dump, LooseInv, HealthOk, WireOk, Gives, Identifies, Expected, Domain, Payload,
      NulFreeResponse, Serves;
    if asks != [] {
      var (outcome, c') := NextCall(w, s, c, n, asks);
      LooseCall(w, s, c, asks[0]);
      EveryResponseMatches(w, s, c', n - 1, asks[1..]);
    }
  }

  /** The response fits the buffer an abandoned one is drained into. */
  ghost predicate ShortResponse(s: Service, token: int, ask: Ask)
    requires Askable(s, token, ask)
  {
    |Dump(ResponseValue(s, token, ask))| <= DRAIN_BUFFER
  }

  lemma ResponseIsShort(w: World, s: Service, n: nat, token: int, ask: Ask)
    requires Serves(w, s) && Askable(s, token, ask) && ShortResponse(s, token, ask)
    ensures ShortAnswer(w, n, Sent(Payload(s, token, ask)))
  {
    hide Dump, Direct, EscapeClosed, PortableAnswer, S.Reply, S.RequestText, Accepted, RequestValue, Respond;
    RequestDecoded(s, token, ask);
    var payload := Payload(s, token, ask);
    assert w.serve(n, payload) == S.Reply(s, payload);
    SentWhole(Dump(ResponseValue(s, token, ask)));
  }

  /** What a caller can see to in a run: clean header writes, and responses that are
      short and hold no NUL. */
  ghost predicate AllShort(w: World, s: Service, c: Client, n: nat, asks: seq<Ask>)
    requires ClientOk(w, c) && Domain(s, c.token, n, asks)
    decreases |asks|
  {
    asks == [] ||
    var (healthy, h) := Check(w, c);
    var (outcome, c') := NextCall(w, s, c, n, asks);
    && (healthy ==> CleanWrite(w, h.(token := h.token + 1)))
    && NulFreeResponse(s, c.token + 1, asks[0]) && ShortResponse(s, c.token + 1, asks[0])
    && AllShort(w, s, c', n - 1, asks[1..])
  }

  lemma ShortAskIsSafe(w: World, s: Service, c: Client, ask: Ask)
    requires ClientOk(w, c) && Askable(s, c.token + 1, ask)
    requires var (healthy, h) := Check(w, c); healthy ==> CleanWrite(w, h.(token := h.token + 1))
    requires NulFreeResponse(s, c.token + 1, ask) && ShortResponse(s, c.token + 1, ask)
    requires Serves(w, s) && LooseInv(w, c) && !c.corrupt && FitsDrain(c.health)
    ensures SafeTransfers(w, c)
    ensures var c' := Call(w, c, Payload(s, c.token + 1, ask)).1; LooseInv(w, c') && !c'.corrupt && FitsDrain(c'.health)
  {
    hide Check, CleanWrite, Call, LooseInv, Askable, Payload, Frames, TextAnswer, ShortAnswer, Serves, NulFreeResponse,
      ShortResponse, FitsDrain;
    var payload, place := Payload(s, c.token + 1, ask), |Frames(c.wire.out)|;
    ResponseIsText(w, s, place, c.token + 1, ask);
    ResponseIsShort(w, s, place, c.token + 1, ask);
    ShortCallIsSafe(w, c, payload);
  }

  lemma {:induction false} AllShortIsSafe(w: World, s: Service, c: Client, n: nat, asks: seq<Ask>)
    requires Serves(w, s) && ClientOk(w, c) && LooseInv(w, c) && !c.corrupt && FitsDrain(c.health)
    requires Domain(s, c.token, n, asks) && AllShort(w, s, c, n, asks)
    ensures AllSafe(w, s, c, n, asks)
    decreases |asks|
  {
    hide Call, SafeTransfers, Askable, LooseInv, HealthOk, WireOk, Domain, Payload, NulFreeResponse, ShortResponse, Serves,
      FitsDrain, Check, CleanWrite;
    if asks != [] {
      ShortAskIsSafe(w, s, c, asks[0]);
      AllShortIsSafe(w, s, NextCall(w, s, c, n, asks).1, n - 1, asks[1..]);
    }
  }

  /** Main result in a caller's terms: over every run on every kernel, with short
      responses that hold no NUL, each response that arrives is the one made for that
      very request, as long as header writes do not hide progress. */
  lemma EveryShortResponseMatches(w: World, s: Service, c: Client, n: nat, asks: seq<Ask>)
    requires Serves(w, s) && ClientOk(w, c) && LooseInv(w, c) && !c.corrupt && FitsDrain(c.health)
    requires Domain(s, c.token, n, asks) && AllShort(w, s, c, n, asks)
    ensures AllMatch(w, s, c, n, asks)
  {
    hide LooseInv, Domain, AllShort, AllSafe, AllMatch, Serves, FitsDrain;
    AllShortIsSafe(w, s, c, n, asks);
    EveryResponseMatches(w, s, c, n, asks);
  }

  // -------------------------------------------- what the client writes, the server can take

  /** A request, written in full or cut short, keeps the stream one the server is
      made for: every frame is a request and fits its buffer, the cut one included. */
  lemma RequestFeeds(w: World, c: Client, payload: string)
    requires ClientOk(w, c) && Aligned(c.wire.out) && S.StreamOk(c.wire.out)
    requires S.RequestText(Sent(payload)) && HEADER_SIZE + |Sent(payload)| <= S.SERVER_BUFFER
    ensures S.StreamOk(WriteRequest(w, c, payload).1.wire.out)
  {
    hide WriteRequest, Written, Frame, Frames, Rest, Sent, S.RequestText, ContentLength;
    var f, k, out := Frame(payload), Written(w, c, payload), c.wire.out;
    RequestOnWire(w, c, payload);
    FrameLength(payload, k);
    if k == |f| {
      assert f[..k] == f;
      FrameAppended(out, payload);
    } else {
      PartAppended(out, payload, k);
    }
  }

  lemma ExchangeFeeds(w: World, c: Client, payload: string)
    requires ClientOk(w, c) && Aligned(c.wire.out) && S.StreamOk(c.wire.out)
    requires S.RequestText(Sent(payload)) && HEADER_SIZE + |Sent(payload)| <= S.SERVER_BUFFER
    ensures S.StreamOk(Exchange(w, c, payload).1.wire.out)
  {
    hide WriteRequest, ReadResponse, S.StreamOk, S.RequestText, Aligned, Sent;
    RequestFeeds(w, c, payload);
  }

  /** So does a call, cut short or not. */
  lemma CallFeeds(w: World, c: Client, payload: string)
    requires LooseInv(w, c) && S.StreamOk(c.wire.out)
    requires S.RequestText(Sent(payload)) && HEADER_SIZE + |Sent(payload)| <= S.SERVER_BUFFER
    ensures S.StreamOk(Call(w, c, payload).1.wire.out)
  {
    hide Loose, Check, Exchange, S.StreamOk, S.RequestText, Aligned, Sent;
    var (healthy, c1) := Check(w, c);
    if healthy {
      HealthyIsOpen(w, c);
      ExchangeFeeds(w, c1.(token := c1.token + 1), payload);
    }
  }

  /** The client at the end of a run. */
  ghost function After(w: World, s: Service, c: Client, n: nat, asks: seq<Ask>): (c': Client)
    requires ClientOk(w, c) && Domain(s, c.token, n, asks)
    ensures ClientOk(w, c')
    decreases |asks|
  {
    if asks == [] then c else After(w, s, NextCall(w, s, c, n, asks).1, n - 1, asks[1..])
  }

  /** Over every run of calls on every kernel, what the client has written is a
      stream the server's loop is made for. */
  lemma {:induction false} EveryRunFeeds(w: World, s: Service, c: Client, n: nat, asks: seq<Ask>)
    requires Serves(w, s) && ClientOk(w, c) && LooseInv(w, c) && Domain(s, c.token, n, asks) && AllSafe(w, s, c, n, asks)
    requires S.StreamOk(c.wire.out)
    ensures S.StreamOk(After(w, s, c, n, asks).wire.out)
    decreases |asks|
  {
    hide Call, SafeTransfers, TextAnswer, Askable, Dump, LooseInv, HealthOk, WireOk, Domain, Payload, Frames, NulFreeResponse, Serves,
      S.StreamOk, S.RequestText, Answered, S.Reply;
    if asks != [] {
      var (_, c') := NextCall(w, s, c, n, asks);
      LooseCall(w, s, c, asks[0]);
      PayloadFits(s, c.token + 1, asks[0]);
      CallFeeds(w, c, Payload(s, c.token + 1, asks[0]));
      EveryRunFeeds(w, s, c', n - 1, asks[1..]);
    }
  }

  lemma PayloadFits(s: Service, token: int, ask: Ask)
    requires Askable(s, token, ask)
    ensures var payload := Payload(s, token, ask);
      S.RequestText(Sent(payload)) && Sent(payload) == payload && HEADER_SIZE + |payload| <= S.SERVER_BUFFER
  {
    hide Dump, Direct, EscapeClosed, PortableAnswer, S.Reply, S.RequestText, Accepted, RequestValue, Respond;
    RequestDecoded(s, token, ask);
  }

  /** So the two loops meet over every run: fed with what the client wrote, the
      server's loop has, at any time and on any kernel of its own, written a prefix
      of the replies the client reads from; and all of them on an attentive one. */
  lemma EveryRunIsServed(w: World, s: Service, c: Client, n: nat, asks: seq<Ask>, p: S.Peer)
    requires Serves(w, s) && ClientOk(w, c) && LooseInv(w, c) && Domain(s, c.token, n, asks) && AllSafe(w, s, c, n, asks)
    requires S.StreamOk(c.wire.out) && p.input == After(w, s, c, n, asks).wire.out
    ensures var out := S.Serve(s, p, S.Wire("", 0, 0)).1.out;
      && out <= Inbound(w, p.input)
      && (S.Attentive(p, 0) ==> out == Inbound(w, p.input))
  {
    hide S.Serve, S.StreamOk, After, Domain, AllSafe, LooseInv, Serves, S.Attentive, Inbound;
    EveryRunFeeds(w, s, c, n, asks);
    assert S.PeerOk(p);
    ServerFillsInbound(w, s, p);
  }

  // --------------------------------------------------- on a steady kernel, all calls

  /** Between calls, with nothing to drain. */
  ghost predicate Ready(w: World, c: Client)
  {
    ClientOk(w, c) && Inv(w, c) && c.open && c.health.state.NoRead? && !c.corrupt
  }

  lemma RequestSucceeds(w: World, c: Client, payload: string)
    requires Ready(w, c) && PromptAt(w.kernel, c.timeout, c.wire.clock) && PromptAt(w.kernel, c.timeout, c.wire.clock + 1)
    ensures var (written, c') := WriteRequest(w, c, payload);
      && written && c' == c.(wire := c'.wire) && c'.wire.clock == c.wire.clock + 2
      && Asked(w, c', Frames(c.wire.out), Sent(payload)) && CleanWrite(w, c)
  {
    hide Run, Header, Sent, Inbound, Frames, Rest, Replies, Asked;
    PromptRun(w.kernel, HEADER_SIZE, HEADER_SIZE, c.timeout, MAX_RETRIES, c.wire.clock);
    var t := Write(w, c.wire, HEADER_SIZE, c.timeout);
    var c1 := c.(wire := AfterWrite(w, c.wire, Header(|Sent(payload)|), t));
    PromptRun(w.kernel, |Sent(payload)|, |Sent(payload)|, c.timeout, MAX_RETRIES, c1.wire.clock);
    RequestAligned(w, c, payload);
  }

  /** A request on a steady kernel. */
  lemma RequestGetsThrough(w: World, c: Client, payload: string)
    requires Ready(w, c) && Steady(w.kernel, c.timeout, MAX_RETRIES, c.wire.clock)
    ensures var (written, c') := WriteRequest(w, c, payload);
      && written && c' == c.(wire := c'.wire) && c.wire.clock <= c'.wire.clock
      && Asked(w, c', Frames(c.wire.out), Sent(payload)) && CleanWrite(w, c)
  {
    hide Run, Header, Sent, Inbound, Frames, Rest, Replies, Asked, Steady;
    SteadyRun(w.kernel, HEADER_SIZE, HEADER_SIZE, c.timeout, MAX_RETRIES, c.wire.clock);
    var t := Write(w, c.wire, HEADER_SIZE, c.timeout);
    var c1 := c.(wire := AfterWrite(w, c.wire, Header(|Sent(payload)|), t));
    SteadyLater(w.kernel, c.timeout, MAX_RETRIES, c.wire.clock, c1.wire.clock);
    SteadyRun(w.kernel, |Sent(payload)|, |Sent(payload)|, c.timeout, MAX_RETRIES, c1.wire.clock);
    RequestAligned(w, c, payload);
  }

  lemma ReplySucceeds(w: World, c: Client, before: seq<string>, request: string, reply: string)
    requires ClientOk(w, c) && Asked(w, c, before, request) && c.health.state.NoRead?
    requires PromptAt(w.kernel, c.timeout, c.wire.clock) && PromptAt(w.kernel, c.timeout, c.wire.clock + 1)
    requires w.serve(|before|, request) == Some(reply) && HEADER_SIZE + |Sent(reply)| <= CALL_BUFFER
    ensures var (outcome, c') := ReadResponse(w, c);
      outcome.Response? && c' == c.(wire := c'.wire) && c'.wire.clock == c.wire.clock + 2
  {
    hide Run, Sent, Frames, Rest, Replies, ContentLength, Frame, Header;
    ReplyContentRead(w, before, request);
    FrameLength(reply, 0);
    var have := |Inbound(w, c.wire.out)| - c.wire.consumed;
    PromptRun(w.kernel, HEADER_SIZE, have, c.timeout, MAX_RETRIES, c.wire.clock);
    ReplyHeaderRead(w, c, before, request);
    var c1 := c.(wire := AfterRead(w, c.wire, Read(w, c.wire, HEADER_SIZE, c.timeout)));
    PromptRun(w.kernel, |Sent(reply)|, have - HEADER_SIZE, c.timeout, MAX_RETRIES, c1.wire.clock);
  }

  /** A reply on a steady kernel. */
  lemma ReplyGetsThrough(w: World, c: Client, before: seq<string>, request: string, reply: string)
    requires ClientOk(w, c) && Asked(w, c, before, request) && c.health.state.NoRead?
    requires Steady(w.kernel, c.timeout, MAX_RETRIES, c.wire.clock)
    requires w.serve(|before|, request) == Some(reply) && HEADER_SIZE + |Sent(reply)| <= CALL_BUFFER
    ensures var (outcome, c') := ReadResponse(w, c); outcome.Response? && c' == c.(wire := c'.wire)
  {
    hide Run, Sent, Frames, Rest, Replies, ContentLength, Frame, Header, Steady;
    ReplyContentRead(w, before, request);
    FrameLength(reply, 0);
    var have := |Inbound(w, c.wire.out)| - c.wire.consumed;
    SteadyRun(w.kernel, HEADER_SIZE, have, c.timeout, MAX_RETRIES, c.wire.clock);
    ReplyHeaderRead(w, c, before, request);
    var c1 := c.(wire := AfterRead(w, c.wire, Read(w, c.wire, HEADER_SIZE, c.timeout)));
    SteadyLater(w.kernel, c.timeout, MAX_RETRIES, c.wire.clock, c1.wire.clock);
    SteadyRun(w.kernel, |Sent(reply)|, have - HEADER_SIZE, c.timeout, MAX_RETRIES, c1.wire.clock);
  }

  /** On a steady kernel a call that the callbacks accept and whose response fits the
      buffer yields, and leaves the client ready for the next. */
  lemma CallSucceeds(w: World, s: Service, c: Client, ask: Ask)
    requires Serves(w, s) && Ready(w, c) && Steady(w.kernel, c.timeout, MAX_RETRIES, c.wire.clock)
    requires Askable(s, c.token + 1, ask) && Accepted(s, c.token + 1, ask)
    requires HEADER_SIZE + |Dump(ResponseValue(s, c.token + 1, ask))| <= CALL_BUFFER
    ensures var (outcome, c') := Call(w, c, Payload(s, c.token + 1, ask));
      outcome.Response? && Ready(w, c') && c'.token == c.token + 1 && c'.timeout == c.timeout
  {
    hide ParseValue, Dump, Direct, EscapeClosed, PortableAnswer, WriteRequest, ReadResponse, ReadAligned, Replies,
      CleanWrite, CleanRead, Sent, S.Reply, S.RequestText, RequestValue, ResponseValue, Accepted, Asked, Frames, Rest, Steady;
    var token := c.token + 1;
    var payload, reply := Dump(RequestValue(token, ask)), Dump(ResponseValue(s, token, ask));
    RequestDecoded(s, token, ask);
    assert w.serve(|Frames(c.wire.out)|, payload) == S.Reply(s, payload) == Some(reply);
    SentWhole(reply);
    var c1 := c.(token := token);
    Runs.TokenIsFree(w, c, token);
    RequestGetsThrough(w, c1, payload);
    var (_, c2) := WriteRequest(w, c1, payload);
    SteadyLater(w.kernel, c.timeout, MAX_RETRIES, c.wire.clock, c2.wire.clock);
    ReplyGetsThrough(w, c2, Frames(c.wire.out), payload, reply);
    ResponseIsClean(w, c1, payload);
    Runs.ExchangeAligned(w, c1, payload);
  }

  /** On a steady kernel this call works: its text survives the trip, the
      callbacks let it through, and its response fits the client's buffer. */
  ghost predicate Works(s: Service, token: int, ask: Ask)
  {
    && Askable(s, token, ask) && Accepted(s, token, ask)
    && HEADER_SIZE + |Dump(ResponseValue(s, token, ask))| <= CALL_BUFFER
  }

  /** The call hands over what was expected, with this request's id, and leaves the
      client ready for the next. */
  ghost predicate HandsOver(w: World, s: Service, c: Client, ask: Ask)
    requires ClientOk(w, c) && Askable(s, c.token + 1, ask)
  {
    var (outcome, c') := Call(w, c, Payload(s, c.token + 1, ask));
    && Gives(ask.kind, outcome, Expected(s, ask)) && Identifies(outcome, c.token + 1)
    && Ready(w, c') && c'.token == c.token + 1 && c'.timeout == c.timeout
  }

  lemma CallHandsOver(w: World, s: Service, c: Client, ask: Ask)
    requires ClientOk(w, c) && Askable(s, c.token + 1, ask)
    requires Serves(w, s) && Ready(w, c) && Steady(w.kernel, c.timeout, MAX_RETRIES, c.wire.clock) && Works(s, c.token + 1, ask)
    ensures HandsOver(w, s, c, ask)
  {
    hide Call, Askable, Accepted, Dump, Inv, HealthOk, WireOk, Gives, Identifies, Expected, Steady, RequestValue, ResponseValue;
    CallSucceeds(w, s, c, ask);
    CleanWhenReady(w, c);
    RemoteCall(w, s, c, ask);
  }

  ghost predicate AllWork(s: Service, token: int, asks: seq<Ask>)
  {
    forall i | 0 <= i < |asks| :: Works(s, token + 1 + i, asks[i])
  }

  lemma LaterWork(s: Service, token: int, asks: seq<Ask>)
    requires asks != [] && AllWork(s, token, asks)
    ensures Works(s, token + 1, asks[0]) && AllWork(s, token + 1, asks[1..])
  {
    hide Works;
    assert Works(s, token + 1 + 0, asks[0]);
    forall i | 0 <= i < |asks[1..]| ensures Works(s, token + 1 + 1 + i, asks[1..][i]) {
      assert Works(s, token + 1 + (i + 1), asks[i + 1]);
    }
  }

  /** The requests of a session, with consecutive tokens. */
  ghost function Payloads(s: Service, token: int, asks: seq<Ask>): (payloads: seq<string>)
    requires AllWork(s, token, asks)
    ensures |payloads| == |asks|
    decreases |asks|
  {
    if asks == [] then []
    else
      LaterWork(s, token, asks);
      [Payload(s, token + 1, asks[0])] + Payloads(s, token + 1, asks[1..])
  }

  /** Every caller of the session is handed what was expected. */
  ghost predicate AllGive(s: Service, token: int, asks: seq<Ask>, outcomes: seq<Connection.Outcome>)
    requires AllWork(s, token, asks) && |outcomes| == |asks|
  {
    forall i | 0 <= i < |asks| ::
      Works(s, token + 1 + i, asks[i]) && Gives(asks[i].kind, outcomes[i], Expected(s, asks[i]))
  }

  /** Main result. On a steady kernel, every call of a session of any length hands its
      caller exactly what the method makes of the arguments: the converted result,
      or nothing when the method is unknown, the arity wrong, or something threw. */
  lemma {:induction false} EveryCallGives(w: World, s: Service, c: Client, asks: seq<Ask>)
    requires Serves(w, s) && Ready(w, c) && Steady(w.kernel, c.timeout, MAX_RETRIES, c.wire.clock) && AllWork(s, c.token, asks)
    ensures AllGive(s, c.token, asks, Runs.RunCalls(w, c, Payloads(s, c.token, asks)).0)
    decreases |asks|
  {
    hide Call, Askable, Accepted, Dump, Inv, HealthOk, WireOk, Gives, Expected, Steady, RequestValue, ResponseValue, AllWork;
    if asks != [] {
      LaterWork(s, c.token, asks);
      CallHandsOver(w, s, c, asks[0]);
      var payloads := Payloads(s, c.token, asks);
      var c1 := Call(w, c, payloads[0]).1;
      SteadyLater(w.kernel, c.timeout, MAX_RETRIES, c.wire.clock, c1.wire.clock);
      EveryCallGives(w, s, c1, asks[1..]);
      assert payloads[1..] == Payloads(s, c1.token, asks[1..]);
      FirstGives(s, c.token, asks, Runs.RunCalls(w, c, payloads).0);
    }
  }

  lemma FirstGives(s: Service, token: int, asks: seq<Ask>, outcomes: seq<Connection.Outcome>)
    requires AllWork(s, token, asks) && |outcomes| == |asks| > 0
    requires AllWork(s, token + 1, asks[1..]) && AllGive(s, token + 1, asks[1..], outcomes[1..])
    requires Works(s, token + 1, asks[0]) && Gives(asks[0].kind, outcomes[0], Expected(s, asks[0]))
    ensures AllGive(s, token, asks, outcomes)
  {
    hide Works, Gives, Expected;
    forall i | 0 <= i < |asks|
      ensures Works(s, token + 1 + i, asks[i]) && Gives(asks[i].kind, outcomes[i], Expected(s, asks[i]))
    {
      assert Works(s, token + 1 + i, asks[i]);
      if i > 0 {
        assert asks[1..][i - 1] == asks[i] && outcomes[1..][i - 1] == outcomes[i];
        assert Gives(asks[1..][i - 1].kind, outcomes[1..][i - 1], Expected(s, asks[1..][i - 1]));
      }
    }
  }

  lemma CleanWhenReady(w: World, c: Client)
    requires Ready(w, c)
    ensures CleanCheck(w, c)
  {
  }

  /** And over a session on a steady kernel, from a client ready for it. */
  lemma {:induction false} SessionFeeds(w: World, s: Service, c: Client, asks: seq<Ask>)
    requires Serves(w, s) && Ready(w, c) && Steady(w.kernel, c.timeout, MAX_RETRIES, c.wire.clock) && AllWork(s, c.token, asks)
    requires S.StreamOk(c.wire.out)
    ensures S.StreamOk(Runs.RunCalls(w, c, Payloads(s, c.token, asks)).1.wire.out)
    decreases |asks|
  {
    hide Call, Askable, Accepted, Dump, Inv, HealthOk, WireOk, Gives, Expected, Steady, RequestValue, ResponseValue, AllWork,
      S.StreamOk, S.RequestText, Loose, Payload;
    if asks != [] {
      LaterWork(s, c.token, asks);
      CallHandsOver(w, s, c, asks[0]);
      var payloads := Payloads(s, c.token, asks);
      RequestGetsThrough(w, c, "");
      ReadyIsSafe(w, c);
      PayloadFits(s, c.token + 1, asks[0]);
      CallFeeds(w, c, payloads[0]);
      var c1 := Call(w, c, payloads[0]).1;
      SteadyLater(w.kernel, c.timeout, MAX_RETRIES, c.wire.clock, c1.wire.clock);
      SessionFeeds(w, s, c1, asks[1..]);
      assert payloads[1..] == Payloads(s, c1.token, asks[1..]);
    }
  }

  lemma ReadyIsSafe(w: World, c: Client)
    requires Ready(w, c) && CleanWrite(w, c)
    ensures LooseInv(w, c) && SafeTransfers(w, c)
  {
    hide Replies, Frames, Rest, WriteRequest, Tail, Run;
    CaughtUpIsLoose(w, c);
  }

  lemma SessionIsServed(w: World, s: Service, c: Client, asks: seq<Ask>, p: S.Peer)
    requires Serves(w, s) && Ready(w, c) && Steady(w.kernel, c.timeout, MAX_RETRIES, c.wire.clock) && AllWork(s, c.token, asks)
    requires S.StreamOk(c.wire.out) && p.input == Runs.RunCalls(w, c, Payloads(s, c.token, asks)).1.wire.out
    ensures var out := S.Serve(s, p, S.Wire("", 0, 0)).1.out;
      && out <= Inbound(w, p.input)
      && (S.Attentive(p, 0) ==> out == Inbound(w, p.input))
  {
    hide S.Serve, S.StreamOk, AllWork, Ready, Serves, Steady, S.Attentive, Inbound, Payloads, Runs.RunCalls;
    SessionFeeds(w, s, c, asks);
    assert S.PeerOk(p);
    ServerFillsInbound(w, s, p);
  }
}
