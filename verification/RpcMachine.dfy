/** The edits and loops behind Rpc.dfy: a response object filled in place, a
    parameter array grown by appending, an argument tuple filled one at a time. */
module RpcMachine {
  import opened Json
  import opened Rpc
  import Printer

  /** A JSON object under construction: a sorted table updated in place. */
  class Document {
    var members: seq<Member>

    /** `makeEmptyResponse`. */
    constructor Empty(id: int)
      ensures members == EmptyResponse(id)
    {
      members := [];
      new;
      Assign("jsonrpc", Str("2.0"));
      Assign("id", Int(id));
    }

    /** `makeRequest`, with its parameters appended one by one. */
    constructor Request(token: int, name: string, args: seq<Value>)
      ensures Object(members) == MakeRequest(token, name, args)
    {
      members := [];
      new;
      Assign("jsonrpc", Str("2.0"));
      Assign("id", Int(token));
      Assign("method", Str(name));
      ghost var start := members;
      var params: seq<Value> := [];
      Assign("params", Array(params));
      for i := 0 to |args|
        invariant params == args[..i] && members == Put(start, "params", Array(params))
      {
        params := params + [args[i]];
        PutTwice(start, "params", Array(args[..i]), Array(params));
        Assign("params", Array(params));
      }
      assert args[..|args|] == args;
    }

    /** `object[key] = value`. */
    method Assign(key: string, value: Value)
      modifies this
      ensures members == Put(old(members), key, value)
    {
      members := Put(members, key, value);
    }

    method FillResult(result: Plain)
      modifies this
      ensures members == Put(old(members), "result", result)
    {
      Assign("result", result);
    }

    method ReportError(code: int, message: string)
      modifies this
      ensures members == Rpc.ReportError(old(members), code, message)
    {
      hide Put, Erase;
      if Get(members, "result").Some? { members := Erase(members, "result"); }
      ghost var clean := members;
      var error := Put([], "code", Int(code));
      Assign("error", Object(error));
      if message != "" {
        PutTwice(clean, "error", Object(error), Object(Put(error, "message", Str(message))));
        Assign("error", Object(Put(error, "message", Str(message))));
      }
    }

    /** Fill in what a method did. */
    method Fill(answer: Answer)
      modifies this
      ensures forall id | old(members) == EmptyResponse(id) :: members == Respond(id, answer)
    {
      match answer
      case Returned(v) => FillResult(v);
      case ProtocolError(code, message) => ReportError(code, message);
      case JsonError => ReportError(PARSE_ERROR, "Parse error");
      case OtherError => ReportError(INTERNAL_ERROR, "Internal error");
    }

    /** `dump`. */
    method Dump() returns (text: string)
      requires DecimalFree(Object(members))
      ensures text == Json.Dump(Object(members))
    {
      var stream := new Printer.Stream();
      stream.Print(Object(members));
      text := stream.text;
    }
  }

  /** `make`: convert the arguments one by one; the first that cannot be throws. */
  method Unpack(d: Decimals, kinds: seq<Kind>, params: seq<Value>) returns (args: Option<seq<Value>>)
    requires |kinds| == |params|
    ensures args == AcceptAll(d, kinds, params)
  {
    hide Accept;
    var tuple: seq<Value> := [];
    ghost var all := AcceptAll(d, kinds, params);
    assert kinds[0..] == kinds && params[0..] == params && (all.Some? ==> [] + all.value == all.value);
    for i := 0 to |params|
      invariant all == match AcceptAll(d, kinds[i..], params[i..]) case Some(rest) => Some(tuple + rest) case None => None
    {
      assert kinds[i..][1..] == kinds[i + 1..] && params[i..][1..] == params[i + 1..];
      match Accept(d, kinds[i], params[i])
      case None => return None;
      case Some(v) =>
        ghost var rest := AcceptAll(d, kinds[i + 1..], params[i + 1..]);
        assert rest.Some? ==> tuple + ([v] + rest.value) == (tuple + [v]) + rest.value;
        tuple := tuple + [v];
    }
    assert kinds[|params|..] == [] && tuple + [] == tuple;
    return Some(tuple);
  }

  /** `netCall` and `dispatch`: the method, the arity, the arguments, the call. */
  method Dispatch(s: Service, name: string, params: Value) returns (answer: Answer)
    ensures answer == NetCall(s, name, params)
  {
    hide AcceptAll;
    if name !in s.table { return ProtocolError(METHOD_NOT_FOUND, "Method not found"); }
    var proxy := s.table[name];
    if !params.Array? { return OtherError; }
    if |proxy.kinds| != |params.elems| { return ProtocolError(INVALID_PARAMS, "Invalid params"); }
    var args := Unpack(s.decimals, proxy.kinds, params.elems);
    match args
    case None => return OtherError;
    case Some(tuple) => answer := proxy.run(tuple);
  }
}
