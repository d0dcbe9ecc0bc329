/** `Client::call<T>` as one imperative operation: build the request in place,
    print it, exchange, parse the response buffer, extract the result. */
module CallMachine {
  import opened Json
  import opened Parser
  import opened NormalForm
  import opened Rpc
  import opened Connection
  import opened Alignment
  import opened Matching
  import opened Attempts
  import opened EndToEnd
  import CursorParser
  import Runs
  import M = ClientMachine
  import RpcMachine

  /** The text of the next request. The source builds it after a check that does
      not depend on it. */
  method Build(token: int, ask: Ask) returns (payload: string)
    requires DecimalFree(RequestValue(token, ask))
    ensures payload == Dump(RequestValue(token, ask))
  {
    var request := new RpcMachine.Document.Request(token, ask.name, ask.args);
    payload := request.Dump();
  }

  /** `decode` and `makeResult` on the memory behind the header. */
  method Extract(memory: string, kind: Kind, ghost expected: Result) returns (result: Result)
    requires Gives(kind, Response(memory), expected)
    ensures result == expected
  {
    hide ParseValue, MakeResult;
    var cursor := new CursorParser.Cursor(memory);
    var r := cursor.ParseValue();
    result := MakeResult(kind, r.v);
  }

  ghost predicate Undisturbed(client: M.Client, s: Service, ask: Ask)
    requires client.Valid()
    reads client, client.socket, client.health
  {
    && Ready(client.world, client.View()) && Steady(client.world.kernel, client.timeout, MAX_RETRIES, client.View().wire.clock)
    && Works(s, client.token + 1, ask)
  }

  /** The client is aligned and its check will be clean. */
  ghost predicate OnTrack(client: M.Client)
    requires client.Valid()
    reads client, client.socket, client.health
  {
    Inv(client.world, client.View()) && CleanCheck(client.world, client.View())
  }

  /** It may have lost its place, but its transfers are safe and the response will
      hold no NUL. */
  ghost predicate OffTrack(client: M.Client, s: Service, ask: Ask)
    requires client.Valid() && Askable(s, client.token + 1, ask)
    reads client, client.socket, client.health
  {
    && LooseInv(client.world, client.View()) && SafeTransfers(client.world, client.View())
    && NulFreeResponse(s, client.token + 1, ask)
  }

  /** Its call will be clean throughout. */
  ghost predicate Clean(client: M.Client, s: Service, ask: Ask)
    requires client.Valid() && Askable(s, client.token + 1, ask)
    reads client, client.socket, client.health
  {
    && Inv(client.world, client.View())
    && CleanCall(client.world, client.View(), Payload(s, client.token + 1, ask))
  }

  /** What a caller is promised: either there was no response, or the result is
      what the method makes of the arguments. The connection stays as sound as it
      was; and on a steady kernel there is a response and the next call may follow. */
  method CallRemote(client: M.Client, ask: Ask, ghost s: Service) returns (answered: bool, result: Result)
    requires DecimalFree(Array(ask.args)) && client.Valid() && Askable(s, client.token + 1, ask) && Serves(client.world, s)
    requires OnTrack(client) || OffTrack(client, s, ask)
    modifies client, client.socket, client.health
    ensures client.Valid()
    ensures result == if answered then Expected(s, ask) else Nullopt
    ensures old(Clean(client, s, ask)) ==> Inv(client.world, client.View())
    ensures old(OffTrack(client, s, ask)) ==> LooseInv(client.world, client.View())
    ensures old(Undisturbed(client, s, ask)) ==> answered && Ready(client.world, client.View())
  {
    hide ParseValue, MakeResult, Gives, Identifies, Expected, Direct, EscapeClosed, PortableAnswer, Call, Inv, LooseInv,
      CleanCheck, CleanExchange, Serves, Steady, HealthOk, WireOk, RequestValue, ResponseValue, Accepted, NulFreeResponse,
      SafeTransfers, TextAnswer, Answered;
    ghost var c := client.View();
    var payload := Build(client.token + 1, ask);
    if OnTrack(client) { RemoteCall(client.world, s, c, ask); }
    if OffTrack(client, s, ask) { LooseCall(client.world, s, c, ask); }
    if Inv(client.world, c) && CleanCall(client.world, c, payload) { Runs.CallAligned(client.world, c, payload); }
    if Undisturbed(client, s, ask) { CallSucceeds(client.world, s, c, ask); }
    var outcome := client.Call(payload);
    if outcome == NoResult { return false, Nullopt; }
    answered := true;
    result := Extract(outcome.memory, ask.kind, Expected(s, ask));
  }
}
