/** JSON-RPC 2.0 objects and the dispatch of a call: trpc/detail/protocol.h,
    resolve.h, CallProxy.h, the object half of Codec.h, and the handling of one
    request in trpc/Server.h. */
module Rpc {
  import opened Json
  import opened NormalForm

  // Error codes, section 5.1 of JSON-RPC 2.0.
  const PARSE_ERROR := -32700
  const METHOD_NOT_FOUND := -32601
  const INVALID_PARAMS := -32602
  const INTERNAL_ERROR := -32603

  type Plain = v: Value | DecimalFree(v) witness Null

  // -------------------------------------------------------------- conversions

  /** The types a parameter or a result can be asked for. */
  datatype Kind = AsInt | AsBool | AsString | AsJson

  /** `to<T>()`: an implicit C++ conversion, or a `runtime_error`. */
  function Convert(kind: Kind, v: Plain): Option<Plain>
  {
    match kind
    case AsInt => if v.Int? then Some(v) else if v.Bool? then Some(Int(if v.b then 1 else 0)) else None
    case AsBool => if v.Bool? then Some(v) else if v.Int? then Some(Bool(v.n != 0)) else None
    case AsString => if v.Str? then Some(v) else None
    case AsJson => Some(v)
  }

  /** What the platform makes of a decimal literal where an `int` or a `bool` is
      wanted: the double in between is not modelled. */
  datatype Decimals = Decimals(truncate: Lexeme -> int, nonzero: Lexeme -> bool)

  /** The same conversions for an argument, which may be or hold a decimal. */
  function Accept(d: Decimals, kind: Kind, v: Value): Option<Value>
  {
    match (kind, v)
    case (AsInt, Decimal(lexeme)) => Some(Int(d.truncate(lexeme)))
    case (AsBool, Decimal(lexeme)) => Some(Bool(d.nonzero(lexeme)))
    case (AsString, Decimal(_)) => None
    case (AsJson, _) => Some(v)
    case _ => if DecimalFree(v) then Convert(kind, v) else None
  }

  function AcceptAll(d: Decimals, kinds: seq<Kind>, vs: seq<Value>): (r: Option<seq<Value>>)
    requires |kinds| == |vs|
    ensures r.Some? ==> |r.value| == |vs|
  {
    if kinds == [] then Some([])
    else
      match (Accept(d, kinds[0], vs[0]), AcceptAll(d, kinds[1..], vs[1..]))
      case (Some(v), Some(rest)) => Some([v] + rest)
      case _ => None
  }

  /** Arguments go by position: all are converted if and only if each is, and the i-th
      result is what the i-th parameter makes of the i-th argument. */
  lemma {:induction false} AcceptAllExactly(d: Decimals, kinds: seq<Kind>, vs: seq<Value>, r: seq<Value>)
    requires |kinds| == |vs|
    ensures AcceptAll(d, kinds, vs) == Some(r) <==> |r| == |vs| && forall i | 0 <= i < |vs| :: Accept(d, kinds[i], vs[i]) == Some(r[i])
    decreases |vs|
  {
    hide Accept;
    if kinds != [] {
      var rest := if r == [] then [] else r[1..];
      AcceptAllExactly(d, kinds[1..], vs[1..], rest);
      if r != [] { assert r == [r[0]] + rest; }
      if |r| == |vs| && forall i | 0 <= i < |vs| :: Accept(d, kinds[i], vs[i]) == Some(r[i]) {
        forall i | 0 <= i < |vs| - 1 ensures Accept(d, kinds[1..][i], vs[1..][i]) == Some(rest[i]) {
          assert Accept(d, kinds[i + 1], vs[i + 1]) == Some(r[i + 1]);
        }
      }
      if AcceptAll(d, kinds, vs) == Some(r) {
        assert r[1..] == AcceptAll(d, kinds[1..], vs[1..]).value;
        forall i | 0 <= i < |vs| ensures Accept(d, kinds[i], vs[i]) == Some(r[i]) {
          if i > 0 { assert Accept(d, kinds[1..][i - 1], vs[1..][i - 1]) == Some(rest[i - 1]); }
        }
      }
    }
  }

  predicate HasKind(kind: Kind, v: Value)
  {
    match kind
    case AsInt => v.Int?
    case AsBool => v.Bool?
    case AsString => v.Str?
    case AsJson => true
  }

  predicate Numeric(v: Value) { v.Int? || v.Bool? }

  /** What a number or a truth value counts as. */
  function Amount(v: Value): int
    requires Numeric(v)
  {
    match v case Int(n) => n case Bool(b) => if b then 1 else 0
  }

  /** Conversions, by what they keep: a value of the type asked for is unchanged, one
      number becomes another of the same amount or its truth, nothing else converts. */
  lemma ConvertExactly(kind: Kind, v: Plain)
    ensures Convert(kind, v).Some? <==> HasKind(kind, v) || (Numeric(v) && (kind.AsInt? || kind.AsBool?))
    ensures HasKind(kind, v) ==> Convert(kind, v) == Some(v)
    ensures Convert(kind, v).Some? ==> HasKind(kind, Convert(kind, v).value)
    ensures kind.AsInt? && Numeric(v) ==> Amount(Convert(kind, v).value) == Amount(v)
    ensures kind.AsBool? && Numeric(v) ==> (Amount(Convert(kind, v).value) != 0 <==> Amount(v) != 0)
  {
  }

  /** An argument without decimals is converted like a result. */
  lemma AcceptConverts(d: Decimals, kind: Kind, v: Plain)
    ensures Accept(d, kind, v) == Convert(kind, v)
  {
  }

  // ----------------------------------------------------------------- dispatch

  /** What a bound function does: return, or throw one of the exceptions the
      server tells apart. */
  datatype Answer =
    | Returned(v: Plain)
    | ProtocolError(code: int, message: string)
    | JsonError
    | OtherError

  /** A bound function: the types of its parameters, and what it does. */
  datatype Proxy = Proxy(kinds: seq<Kind>, run: seq<Value> -> Answer)

  /** The method table, how decimals convert, and the two callbacks. */
  datatype Service = Service(
    table: map<string, Proxy>,
    decimals: Decimals,
    acceptsRequest: Value -> bool,
    acceptsResponse: Value -> bool)

  /** `netCall`: look the method up, check arity, unpack the arguments, call. */
  function NetCall(s: Service, name: string, params: Value): Answer
  {
    if name !in s.table then ProtocolError(METHOD_NOT_FOUND, "Method not found")
    else if !params.Array? then OtherError
    else if |s.table[name].kinds| != |params.elems| then ProtocolError(INVALID_PARAMS, "Invalid params")
    else
      match AcceptAll(s.decimals, s.table[name].kinds, params.elems)
      case None => OtherError
      case Some(args) => s.table[name].run(args)
  }

  // ------------------------------------------------------------------ objects

  /** `makeRequest`. */
  function MakeRequest(token: int, name: string, args: seq<Value>): Value
  {
    Object(Put(Put(Put(Put([], "jsonrpc", Str("2.0")), "id", Int(token)), "method", Str(name)), "params", Array(args)))
  }

  /** `makeEmptyResponse`, from the id of the request. */
  function EmptyResponse(id: int): seq<Member>
  {
    Put(Put([], "jsonrpc", Str("2.0")), "id", Int(id))
  }

  /** `reportError`. */
  function ReportError(response: seq<Member>, code: int, message: string): seq<Member>
  {
    var clean := if Get(response, "result").Some? then Erase(response, "result") else response;
    var error := Put([], "code", Int(code));
    Put(clean, "error", Object(if message == "" then error else Put(error, "message", Str(message))))
  }

  /** The response to a request, by what its method did. */
  function Respond(id: int, answer: Answer): seq<Member>
  {
    match answer
    case Returned(v) => Put(EmptyResponse(id), "result", v)
    case ProtocolError(code, message) => ReportError(EmptyResponse(id), code, message)
    case JsonError => ReportError(EmptyResponse(id), PARSE_ERROR, "Parse error")
    case OtherError => ReportError(EmptyResponse(id), INTERNAL_ERROR, "Internal error")
  }

  /** Code and message of the error an answer turns into. */
  function ErrorOf(answer: Answer): Option<(int, string)>
  {
    match answer
    case Returned(_) => None
    case ProtocolError(code, message) => Some((code, message))
    case JsonError => Some((PARSE_ERROR, "Parse error"))
    case OtherError => Some((INTERNAL_ERROR, "Internal error"))
  }

  /** A well-formed request object: an integer id and a method name. */
  predicate RequestOk(v: Value)
  {
    && v.Object?
    && (match Get(v.members, "id") case Some(Int(_)) => true case _ => false)
    && (match Get(v.members, "method") case Some(Str(_)) => true case _ => false)
  }

  lemma {:induction false} GetDecimalFree(ms: seq<Member>, key: string)
    requires forall i | 0 <= i < |ms| :: DecimalFree(ms[i].value)
    ensures Get(ms, key).Some? ==> DecimalFree(Get(ms, key).value)
  {
    if ms != [] && ms[0].key != key { GetDecimalFree(ms[1..], key); }
  }

  /** A missing `params` is the empty object indexing inserts. */
  function Params(request: Value): Value
    requires RequestOk(request)
  {
    match Get(request.members, "params")
    case Some(v) => v
    case None => Object([])
  }

  /** What the server does with one decoded request: the response, unless a
      callback drops it. */
  function Handle(s: Service, request: Value): Option<seq<Member>>
    requires RequestOk(request)
  {
    if !s.acceptsRequest(request) then None
    else
      var answer := NetCall(s, Get(request.members, "method").value.raw, Params(request));
      var response := Respond(Get(request.members, "id").value.n, answer);
      if s.acceptsResponse(Object(response)) then Some(response) else None
  }

  /** What `makeResult` and the conversion of `call<T>` make of a response. */
  datatype Result = Yields(v: Plain) | Nullopt | Raises

  function MakeResult(kind: Kind, response: Plain): Result
  {
    if !response.Object? then Raises
    else
      match Get(response.members, "error")
      case None =>
        GetDecimalFree(response.members, "result");
        var v := match Get(response.members, "result") case Some(v) => v case None => Object([]);
        (match Convert(kind, v) case Some(u) => Yields(u) case None => Raises)
      case Some(error) => if error.Object? then Nullopt else Raises
  }

  // ----------------------------------------------------------- their contents

  lemma EmptyResponseFields(id: int)
    ensures Sorted(EmptyResponse(id))
    ensures Get(EmptyResponse(id), "jsonrpc") == Some(Str("2.0")) && Get(EmptyResponse(id), "id") == Some(Int(id))
    ensures forall k | k != "jsonrpc" && k != "id" :: Get(EmptyResponse(id), k) == None
  {
    PutIsMapUpdate([], "jsonrpc", Str("2.0"));
    PutIsMapUpdate(Put([], "jsonrpc", Str("2.0")), "id", Int(id));
  }

  lemma ReportErrorFields(response: seq<Member>, code: int, message: string)
    requires Sorted(response)
    ensures var r := ReportError(response, code, message);
      && Sorted(r) && Get(r, "result") == None
      && (forall k | k != "result" && k != "error" :: Get(r, k) == Get(response, k))
      && Get(r, "error").Some? && Get(r, "error").value.Object?
      && (var e := Get(r, "error").value.members;
          && Sorted(e) && Get(e, "code") == Some(Int(code))
          && Get(e, "message") == if message == "" then None else Some(Str(message)))
  {
    hide Put, Erase;
    var clean := if Get(response, "result").Some? then Erase(response, "result") else response;
    EraseIsMapRemoval(response, "result");
    var error := Put([], "code", Int(code));
    PutIsMapUpdate([], "code", Int(code));
    PutIsMapUpdate(error, "message", Str(message));
    PutIsMapUpdate(clean, "error", Object(if message == "" then error else Put(error, "message", Str(message))));
  }

  /** Shape of every response, over every outcome of the method: id and version
      kept, exactly one of `result` and `error` and nothing else (section 5 of
      JSON-RPC 2.0), and the error code decided by what was thrown. */
  lemma ResponseShape(id: int, answer: Answer)
    ensures var r := Respond(id, answer);
      && Sorted(r)
      && Get(r, "jsonrpc") == Some(Str("2.0")) && Get(r, "id") == Some(Int(id))
      && (Get(r, "result").Some? <==> Get(r, "error").None?)
      && (forall k :: Get(r, k).Some? ==> k == "jsonrpc" || k == "id" || k == "result" || k == "error")
      && (match ErrorOf(answer)
          case None => answer.Returned? && Get(r, "result") == Some(answer.v)
          case Some((code, message)) =>
            Get(r, "error").Some? && Get(r, "error").value.Object?
            && Get(Get(r, "error").value.members, "code") == Some(Int(code)))
  {
    EmptyResponseFields(id);
    match ErrorOf(answer)
    case None => PutIsMapUpdate(EmptyResponse(id), "result", answer.v);
    case Some((code, message)) => ReportErrorFields(EmptyResponse(id), code, message);
  }

  /** A value is extracted only from a response without an error, and it is the
      converted result. */
  lemma ResultOfResponse(id: int, answer: Answer, kind: Kind)
    requires DecimalFree(Object(Respond(id, answer)))
    ensures MakeResult(kind, Object(Respond(id, answer))) ==
      if !answer.Returned? then Nullopt
      else match Convert(kind, answer.v) case Some(v) => Yields(v) case None => Raises
  {
    hide Respond;
    ResponseShape(id, answer);
  }

  lemma RequestFields(token: int, name: string, args: seq<Value>)
    ensures MakeRequest(token, name, args).Object? && Sorted(MakeRequest(token, name, args).members)
    ensures var ms := MakeRequest(token, name, args).members;
      && Get(ms, "jsonrpc") == Some(Str("2.0")) && Get(ms, "id") == Some(Int(token))
      && Get(ms, "method") == Some(Str(name)) && Get(ms, "params") == Some(Array(args))
  {
    var a := Put([], "jsonrpc", Str("2.0"));
    var b := Put(a, "id", Int(token));
    var c := Put(b, "method", Str(name));
    PutIsMapUpdate([], "jsonrpc", Str("2.0"));
    PutIsMapUpdate(a, "id", Int(token));
    PutIsMapUpdate(b, "method", Str(name));
    PutIsMapUpdate(c, "params", Array(args));
  }

  ghost predicate Reports(response: seq<Member>, code: int, message: string)
  {
    && Get(response, "error").Some? && Get(response, "error").value.Object?
    && var e := Get(response, "error").value.members;
       Get(e, "code") == Some(Int(code)) && Get(e, "message") == if message == "" then None else Some(Str(message))
  }

  lemma FailureReports(id: int, answer: Answer)
    requires !answer.Returned?
    ensures Reports(Respond(id, answer), ErrorOf(answer).value.0, ErrorOf(answer).value.1)
  {
    EmptyResponseFields(id);
    var (code, message) := ErrorOf(answer).value;
    ReportErrorFields(EmptyResponse(id), code, message);
    hide ReportError, Put, Get;
  }

  /** As many arguments as parameters, one of the wrong type. */
  predicate Misfits(s: Service, name: string, elems: seq<Value>)
    requires name in s.table
  {
    && |s.table[name].kinds| == |elems|
    && exists i :: 0 <= i < |elems| && Accept(s.decimals, s.table[name].kinds[i], elems[i]).None?
  }

  /** What the caller of a method that cannot be called is told, in the codes of
      section 5.1 of JSON-RPC 2.0: no such method, not that many parameters, and an
      internal error for an argument of the wrong type. */
  lemma FailureCodes(s: Service, id: int, name: string, elems: seq<Value>)
    ensures var response := Respond(id, NetCall(s, name, Array(elems)));
      && (name !in s.table ==> Reports(response, -32601, "Method not found"))
      && (name in s.table && |s.table[name].kinds| != |elems| ==> Reports(response, -32602, "Invalid params"))
      && (name in s.table && Misfits(s, name, elems) ==> Reports(response, -32603, "Internal error"))
  {
    hide Respond, Reports, Accept, AcceptAll;
    var answer := NetCall(s, name, Array(elems));
    if name in s.table && |s.table[name].kinds| == |elems| {
      var kinds := s.table[name].kinds;
      var all := AcceptAll(s.decimals, kinds, elems);
      if all.Some? { AcceptAllExactly(s.decimals, kinds, elems, all.value); } else { FailureReports(id, answer); }
    } else {
      FailureReports(id, answer);
    }
  }

  /** And what one is told whose method throws. */
  lemma ThrownCodes(id: int, code: int, message: string)
    ensures Reports(Respond(id, ProtocolError(code, message)), code, message)
    ensures Reports(Respond(id, JsonError), -32700, "Parse error")
    ensures Reports(Respond(id, OtherError), -32603, "Internal error")
  {
    hide Respond, Reports;
    FailureReports(id, ProtocolError(code, message));
    FailureReports(id, JsonError);
    FailureReports(id, OtherError);
  }

  // --------------------------------------------- what survives being printed

  /** Can be printed and read back inside a message. */
  predicate Portable(v: Value) { DecimalFree(v) && Normal(v) }

  ghost predicate PortableMembers(ms: seq<Member>)
  {
    Sorted(ms) && forall i | 0 <= i < |ms| :: EscapeClosed(ms[i].key) && Portable(ms[i].value)
  }

  lemma PutPortable(ms: seq<Member>, key: string, value: Value)
    requires PortableMembers(ms) && EscapeClosed(key) && Portable(value)
    ensures PortableMembers(Put(ms, key, value)) && Portable(Object(Put(ms, key, value)))
  {
    hide Put, Normal, DecimalFree, EscapeClosed;
    PutIsMapUpdate(ms, key, value);
    PutMembers(ms, key, value);
    var all := Put(ms, key, value);
    forall i | 0 <= i < |all| ensures EscapeClosed(all[i].key) && Portable(all[i].value) {
      assert all[i] in all;
      if all[i] != Member(key, value) {
        var j :| 0 <= j < |ms| && ms[j] == all[i];
      }
    }
    ObjectPortable(all);
  }

  lemma ObjectPortable(ms: seq<Member>)
    requires PortableMembers(ms)
    ensures Portable(Object(ms))
  {
  }

  lemma KeysClosed()
    ensures EscapeClosed("jsonrpc") && EscapeClosed("id") && EscapeClosed("method") && EscapeClosed("params")
    ensures EscapeClosed("result") && EscapeClosed("error") && EscapeClosed("code") && EscapeClosed("message")
    ensures EscapeClosed("2.0")
  {
    hide EscapeClosed;
    PlainTextClosed("jsonrpc");
    PlainTextClosed("id");
    PlainTextClosed("method");
    PlainTextClosed("params");
    PlainTextClosed("result");
    PlainTextClosed("error");
    PlainTextClosed("code");
    PlainTextClosed("message");
    PlainTextClosed("2.0");
  }

  lemma MessagesClosed()
    ensures EscapeClosed("Parse error") && EscapeClosed("Internal error")
    ensures EscapeClosed("Method not found") && EscapeClosed("Invalid params")
  {
    hide EscapeClosed;
    PlainTextClosed("Parse error");
    PlainTextClosed("Internal error");
    PlainTextClosed("Method not found");
    PlainTextClosed("Invalid params");
  }

  lemma {:induction false} PlainTextClosed(t: string)
    requires forall i | 0 <= i < |t| :: t[i] != '\"' && t[i] != '\\'
    ensures EscapeClosed(t)
    decreases |t|
  {
    if t != [] { PlainTextClosed(t[1..]); }
  }

  lemma RequestPortable(token: int, name: string, args: seq<Value>)
    requires -MAX_INT <= token <= MAX_INT && EscapeClosed(name) && Portable(Array(args))
    ensures Portable(MakeRequest(token, name, args))
  {
    hide EscapeClosed, Put;
    KeysClosed();
    var a := Put([], "jsonrpc", Str("2.0"));
    var b := Put(a, "id", Int(token));
    var c := Put(b, "method", Str(name));
    PutPortable([], "jsonrpc", Str("2.0"));
    PutPortable(a, "id", Int(token));
    PutPortable(b, "method", Str(name));
    PutPortable(c, "params", Array(args));
  }

  /** An answer whose response can be printed and read back. */
  predicate PortableAnswer(answer: Answer)
  {
    match answer
    case Returned(v) => Normal(v)
    case ProtocolError(code, message) => -MAX_INT <= code <= MAX_INT && EscapeClosed(message)
    case _ => true
  }

  lemma ReportErrorPortable(response: seq<Member>, code: int, message: string)
    requires PortableMembers(response) && Get(response, "result") == None
    requires -MAX_INT <= code <= MAX_INT && EscapeClosed(message)
    ensures Portable(Object(ReportError(response, code, message)))
  {
    hide EscapeClosed, Put;
    KeysClosed();
    var error := Put([], "code", Int(code));
    PutPortable([], "code", Int(code));
    PutPortable(error, "message", Str(message));
    PutPortable(response, "error", Object(if message == "" then error else Put(error, "message", Str(message))));
  }

  lemma ResponsePortable(id: int, answer: Answer)
    requires -MAX_INT <= id <= MAX_INT && PortableAnswer(answer)
    ensures Portable(Object(Respond(id, answer)))
  {
    hide EscapeClosed, Put, ReportError;
    KeysClosed();
    MessagesClosed();
    PutPortable([], "jsonrpc", Str("2.0"));
    PutPortable(Put([], "jsonrpc", Str("2.0")), "id", Int(id));
    EmptyResponseFields(id);
    match ErrorOf(answer)
    case None => PutPortable(EmptyResponse(id), "result", answer.v);
    case Some((code, message)) => ReportErrorPortable(EmptyResponse(id), code, message);
  }

  /** A response never carries a decimal: the server can always print it. */
  lemma ResponsePlain(id: int, answer: Answer)
    ensures DecimalFree(Object(Respond(id, answer)))
  {
    hide Put, ReportError;
    PutPlain([], "jsonrpc", Str("2.0"));
    PutPlain(Put([], "jsonrpc", Str("2.0")), "id", Int(id));
    EmptyResponseFields(id);
    match ErrorOf(answer)
    case None => PutPlain(EmptyResponse(id), "result", answer.v);
    case Some((code, message)) => ReportErrorPlain(EmptyResponse(id), code, message);
  }

  ghost predicate PlainMembers(ms: seq<Member>) { forall i | 0 <= i < |ms| :: DecimalFree(ms[i].value) }

  lemma PutPlain(ms: seq<Member>, key: string, value: Value)
    requires PlainMembers(ms) && DecimalFree(value)
    ensures PlainMembers(Put(ms, key, value))
  {
    hide Put, DecimalFree;
    PutMembers(ms, key, value);
    var all := Put(ms, key, value);
    forall i | 0 <= i < |all| ensures DecimalFree(all[i].value) {
      assert all[i] in all;
      if all[i] != Member(key, value) {
        var j :| 0 <= j < |ms| && ms[j] == all[i];
      }
    }
  }

  lemma ReportErrorPlain(response: seq<Member>, code: int, message: string)
    requires PlainMembers(response) && Get(response, "result") == None
    ensures PlainMembers(ReportError(response, code, message))
  {
    hide Put;
    var error := Put([], "code", Int(code));
    PutPlain([], "code", Int(code));
    PutPlain(error, "message", Str(message));
    PutPlain(response, "error", Object(if message == "" then error else Put(error, "message", Str(message))));
  }
}
