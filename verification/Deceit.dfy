/** Why matching off its place asks for responses without a NUL: a method whose result
    holds bytes that read as a header, and a run in which the second call is handed
    part of the first response. */
module Deceit {
  import opened Json
  import opened NormalForm
  import opened Framing
  import opened Rpc
  import opened Connection
  import opened Matching
  import opened Overrun
  import opened EndToEnd
  import opened Traces
  import opened Example
  import S = Server

  /** A string of 220 characters, the header of a reply of five among them. */
  function Raw(): string { "aaaaaa" + Header(5) + seq(210, i => 'a') }

  function Speak(args: seq<Value>): Answer { Returned(Str(Raw())) }

  /** A method `f` without parameters that returns it. */
  function Speaker(): Service
  {
    Service(map["f" := Proxy([], Speak)], Decimals(lexeme => 0, lexeme => false), v => true, v => true)
  }

  function Question(): Ask { Ask("f", [], AsString) }

  /** Where the string's header lies in the response to the first request. */
  const PLACE := 40

  function SpeakerWorld(): World
  {
    World((i, p) => if S.RequestText(p) then S.Reply(Speaker(), p) else None, SplitKernel(), StaleLength(PLACE))
  }

  lemma SpeakerServes()
    ensures Serves(SpeakerWorld(), Speaker())
  {
    hide S.RequestText, S.Reply;
  }

  // ------------------------------------------------------------------ its texts

  lemma Speaks()
    ensures DecimalFree(Array(Question().args)) && Direct(Speaker(), Question()) == Returned(Str(Raw()))
  {
    assert AcceptAll(Speaker().decimals, [], []) == Some([]);
    assert Speak([]) == Returned(Str(Raw()));
  }

  lemma RawIsClosed()
    ensures EscapeClosed(Raw()) && |Raw()| == 220 && Raw()[6..10] == Header(5) && Raw()[10..15] == "aaaaa"
  {
    hide EscapeClosed;
    PlainTextClosed(Raw());
  }

  lemma ResponseMembers(token: int, raw: string)
    ensures Respond(token, Returned(Str(raw))) ==
      [Member("id", Int(token)), Member("jsonrpc", Str("2.0")), Member("result", Str(raw))]
  {
    var version, id, result := Member("jsonrpc", Str("2.0")), Member("id", Int(token)), Member("result", Str(raw));
    assert Put([], "jsonrpc", Str("2.0")) == [version];
    assert Less("id", "jsonrpc") && !Less("result", "id") && !Less("result", "jsonrpc");
    assert EmptyResponse(token) == [id] + [version];
    assert Put([version], "result", Str(raw)) == [version] + Put([], "result", Str(raw)) by { assert [version][1..] == []; }
    assert ([id] + [version])[1..] == [version];
    assert Put([id] + [version], "result", Str(raw)) == [id] + ([version] + [result]);
  }

  lemma MemberTexts(raw: string)
    ensures DumpMember(Member("id", Int(1))) == "\"id\":1"
    ensures DumpMember(Member("jsonrpc", Str("2.0"))) == "\"jsonrpc\":\"2.0\""
    ensures DumpMember(Member("result", Str(raw))) == "\"result\":\"" + raw + "\""
  {
    assert NatText(1) == "1";
    assert Dump(Int(1)) == "1";
    assert Dump(Str(raw)) == "\"" + raw + "\"";
  }

  lemma ThreeMembers(a: Member, b: Member, c: Member)
    requires DecimalFree(a.value) && DecimalFree(b.value) && DecimalFree(c.value)
    ensures DecimalFree(Object([a, b, c]))
    ensures Dump(Object([a, b, c])) == "{" + (DumpMember(a) + "," + (DumpMember(b) + "," + DumpMember(c))) + "}"
  {
    hide DumpMember;
    assert [a, b, c][1..] == [b, c] && [b, c][1..] == [c];
    assert DumpMembers([b, c]) == DumpMember(b) + "," + DumpMembers([c]);
  }

  /** Where the string lies in the text. */
  lemma Layout(a: string, b: string, c: string, raw: string)
    requires |a| + |b| + |c| == 31
    ensures var t := "{" + (a + "," + (b + "," + (c + raw + "\""))) + "}";
      |t| == |raw| + 36 && t[34..34 + |raw|] == raw
  {
    var t := "{" + (a + "," + (b + "," + (c + raw + "\""))) + "}";
    assert forall i | 0 <= i < |raw| :: t[34 + i] == raw[i];
  }

  lemma ResponseText(raw: string)
    ensures DecimalFree(Object(Respond(1, Returned(Str(raw)))))
    ensures var t := Dump(Object(Respond(1, Returned(Str(raw))))); |t| == |raw| + 36 && t[34..34 + |raw|] == raw
  {
    ResponseMembers(1, raw);
    hide Respond, Dump, DumpMember;
    ThreeMembers(Member("id", Int(1)), Member("jsonrpc", Str("2.0")), Member("result", Str(raw)));
    MemberTexts(raw);
    Layout("\"id\":1", "\"jsonrpc\":\"2.0\"", "\"result\":\"", raw);
  }

  lemma SliceOfSlice(t: string, i: nat, j: nat, a: nat, b: nat)
    requires i <= j <= |t| && a <= b <= j - i
    ensures t[i..j][a..b] == t[i + a..i + b]
  {
    var u := t[i..j];
    assert forall k | a <= k < b :: u[k] == t[i + k];
  }

  /** The first response is 256 bytes long and holds the header at its place. */
  lemma FirstResponse()
    ensures DecimalFree(ResponseValue(Speaker(), 1, Question()))
    ensures var reply := Dump(ResponseValue(Speaker(), 1, Question()));
      && Sent(reply) == reply && |reply| == 0x100
      && reply[PLACE..PLACE + 4] == Header(5) && reply[PLACE + 4..PLACE + 9] == "aaaaa"
  {
    Speaks();
    RawIsClosed();
    ResponseText(Raw());
    hide Respond, Direct, Raw, Dump, Header, EscapeClosed;
    var reply := Dump(ResponseValue(Speaker(), 1, Question()));
    SliceOfSlice(reply, 34, 254, 6, 10);
    SliceOfSlice(reply, 34, 254, 10, 15);
    SentWhole(reply);
  }

  lemma QuestionIsAskable(token: int)
    requires 0 <= token < 10
    ensures Askable(Speaker(), token, Question())
  {
    Speaks();
    RawIsClosed();
    PlainTextClosed("f");
    RequestSize(token, "f", []);
    ResultSize(token, Str(Raw()));
    hide Put, Less, Dump, MakeRequest, Respond, EscapeClosed, Direct, Raw;
    assert |IntText(token)| == 1 && |Dump(Array([]))| == 2 && |Dump(Str(Raw()))| == 222 by { SmallTexts(token); }
    assert DecimalFree(Array([])) && Normal(Array([])) && Normal(Str(Raw()));
  }

  lemma SmallTexts(token: int)
    requires 0 <= token < 10
    ensures |IntText(token)| == 1 && |Dump(Array([]))| == 2 && |Dump(Str(Raw()))| == 222
  {
    RawIsClosed();
  }

  // ------------------------------------------------------------------- the run

  ghost predicate HoldsHeader(reply: string, at: nat)
  {
    && Sent(reply) == reply && |reply| == 0x100 && 0 < at && at + 9 <= 0x100
    && reply[at..at + 4] == Header(5) && reply[at + 4..at + 9] == "aaaaa"
  }

  ghost function FirstReply(s: Service, ask: Ask): string
    requires Askable(s, 1, ask)
  {
    Dump(ResponseValue(s, 1, ask))
  }

  /** What a deceitful service and its world come to. */
  ghost predicate Deceitful(w: World, s: Service, ask: Ask, at: nat)
  {
    && Serves(w, s) && Askable(s, 1, ask) && Askable(s, 2, ask) && Accepted(s, 1, ask)
    && w.kernel == SplitKernel() && HoldsHeader(FirstReply(s, ask), at) && w.stack == StaleLength(at)
  }

  lemma SpeakerTexts(s: Service, ask: Ask)
    requires s == Speaker() && ask == Question()
    ensures Askable(s, 1, ask) && Askable(s, 2, ask) && HoldsHeader(FirstReply(s, ask), PLACE)
  {
    QuestionIsAskable(1);
    QuestionIsAskable(2);
    FirstResponse();
    hide Speaker, Question, Askable, ResponseValue, Dump, Sent, Header;
  }

  lemma SpeakerMeets(w: World, s: Service, ask: Ask)
    requires w == SpeakerWorld() && s == Speaker() && ask == Question()
    ensures Deceitful(w, s, ask, PLACE)
  {
    SpeakerServes();
    SpeakerTexts(s, ask);
    hide Askable, HoldsHeader, FirstReply, Serves, RequestValue, ResponseValue;
    assert w.kernel == SplitKernel() && w.stack == StaleLength(PLACE);
    assert Accepted(s, 1, ask);
  }

  lemma FirstIsServed(w: World, s: Service, ask: Ask)
    requires Serves(w, s) && Askable(s, 1, ask) && Accepted(s, 1, ask)
    ensures w.serve(0, Sent(Payload(s, 1, ask))) == Some(FirstReply(s, ask))
  {
    hide S.RequestText, S.Reply, Direct, EscapeClosed, PortableAnswer, RequestValue, ResponseValue, Dump, Accepted;
    RequestDecoded(s, 1, ask);
    assert w.serve(0, Payload(s, 1, ask)) == S.Reply(s, Payload(s, 1, ask));
  }

  lemma DeceivesIf(w: World, s: Service, ask: Ask, second: string, at: nat)
    requires Deceitful(w, s, ask, at)
    ensures Deceives(w, Payload(s, 1, ask), second, FirstReply(s, ask), at)
  {
    hide Serves, Askable, Accepted, Payload, FirstReply, Sent, Header;
    FirstIsServed(w, s, ask);
  }

  /** What five such bytes decode to is no object, so it is nobody's response. */
  lemma NotAResponse(memory: string, token: int)
    requires "aaaaa" <= memory
    ensures !Identifies(Response(memory), token)
  {
    assert memory[0] == 'a';
  }

  lemma SecondFails(w: World, s: Service, c: Client, asks: seq<Ask>)
    requires |asks| == 2 && ClientOk(w, c) && Domain(s, c.token, 2, asks)
    requires var c1 := NextCall(w, s, c, 2, asks).1;
      var outcome := NextCall(w, s, c1, 1, asks[1..]).0;
      outcome.Response? && !Identifies(outcome, c1.token + 1)
    ensures !AllMatch(w, s, c, 2, asks)
  {
    hide Askable, Payload, Call, HealthOk, WireOk, Gives, Identifies, Expected, Domain;
    var c1 := NextCall(w, s, c, 2, asks).1;
    assert !AllMatch(w, s, c1, 1, asks[1..]);
  }

  lemma BothInDomain(s: Service, ask: Ask, asks: seq<Ask>)
    requires Askable(s, 1, ask) && Askable(s, 2, ask) && asks == [ask, ask]
    ensures Domain(s, 0, 2, asks)
  {
    hide Askable;
  }

  /** The run, of bytes. */
  lemma PartHandedOut(w: World, s: Service, ask: Ask, at: nat)
    requires Deceitful(w, s, ask, at)
    ensures ClientOk(w, Fresh()) && LooseInv(w, Fresh()) && SafeTransfers(w, Fresh())
    ensures var c1 := Call(w, Fresh(), Payload(s, 1, ask)).1; var (outcome, _) := Call(w, c1, Payload(s, 2, ask));
      c1.token == 1 && SafeTransfers(w, c1) && outcome.Response? && !Identifies(outcome, 2)
  {
    hide Serves, Askable, Accepted, Payload, FirstReply, Sent, Header, Call, LooseInv, SafeTransfers, Deceives, Identifies, Fresh,
      HealthOk, WireOk;
    DeceivesIf(w, s, ask, Payload(s, 2, ask), at);
    WrongBytesReached(w, Payload(s, 1, ask), Payload(s, 2, ask), FirstReply(s, ask), at);
    NotAResponse(Call(w, Call(w, Fresh(), Payload(s, 1, ask)).1, Payload(s, 2, ask)).0.memory, 2);
  }

  lemma RunDeceives(w: World, s: Service, c: Client, ask: Ask, asks: seq<Ask>, at: nat)
    requires Deceitful(w, s, ask, at) && c == Fresh() && asks == [ask, ask]
    ensures ClientOk(w, c) && LooseInv(w, c) && !c.corrupt && FitsDrain(c.health)
    ensures Domain(s, c.token, 2, asks) && !AllMatch(w, s, c, 2, asks)
    ensures SafeTransfers(w, c) && SafeTransfers(w, NextCall(w, s, c, 2, asks).1)
  {
    assert c.token == 0 && !c.corrupt && FitsDrain(c.health);
    PartHandedOut(w, s, ask, at);
    BothInDomain(s, ask, asks);
    hide Serves, Askable, Accepted, Payload, FirstReply, Sent, Header, Call, LooseInv, SafeTransfers, Deceives, Identifies, Fresh,
      HealthOk, WireOk, Domain, AllMatch, HoldsHeader;
    assert asks[1..][0] == ask;
    SecondFails(w, s, c, asks);
  }

  /** Every hypothesis of EndToEnd.EveryResponseMatches holds of this run but the one
      on NULs, and it fails: the second call is handed part of the first response. */
  lemma NulsDeceive(w: World, s: Service, c: Client, ask: Ask, asks: seq<Ask>)
    requires w == SpeakerWorld() && s == Speaker() && c == Fresh() && ask == Question() && asks == [ask, ask]
    ensures Serves(w, s) && ClientOk(w, c) && LooseInv(w, c) && !c.corrupt && FitsDrain(c.health)
    ensures Domain(s, c.token, 2, asks) && !AllMatch(w, s, c, 2, asks)
    ensures SafeTransfers(w, c) && SafeTransfers(w, NextCall(w, s, c, 2, asks).1)
  {
    SpeakerMeets(w, s, ask);
    hide Speaker, SpeakerWorld, Question, Fresh, LooseInv, Domain, AllMatch, SafeTransfers, Serves, HealthOk, WireOk, NextCall,
      Askable, Accepted, HoldsHeader;
    RunDeceives(w, s, c, ask, asks, PLACE);
  }
}
