/** Why matching asks that header writes hide no progress: a run in which one hidden
    byte of a request's header makes the server repeat its answer to an earlier
    request, and the client hand that out as the answer to a later one. */
module HiddenWrite {
  import opened Json
  import opened Parser
  import opened NormalForm
  import opened Framing
  import opened BestEffort
  import opened Rpc
  import opened Connection
  import opened Alignment
  import opened EndToEnd
  import opened Traces
  import opened Example
  import Locality
  import Runs
  import S = Server

  // --------------------------------------------------------------- the server

  /** What the server's loop decodes is the memory behind the header. After a frame
      without content that is still the request before, and so its value again. */
  lemma EmptyFrameRepeats(request: string, stale: string)
    requires S.RequestText(request)
    ensures ParseValue(request + stale, 0) == ParseValue(request, 0)
  {
    hide ParseValue;
    S.RequestIsObject(request);
    assert request + "" == request;
    InsideItself(request);
    Locality.DecodeIgnoresStaleBytes(request, "", stale);
  }

  lemma InsideItself(request: string)
    requires S.RequestText(request)
    ensures ParseValue(request, 0).Ok? && ParseValue(request, 0).p <= |request|
  {
  }

  /** Behind a whole request, the first byte of a cut header and a short request read
      as a frame without content, and no other whole frame. */
  lemma GarbledFrames(a: string, c: string)
    requires 0 < |Sent(c)| < 0x100
    ensures Frames(Frame(a) + ("\0" + Frame(c))) == [Sent(a), ""]
  {
    hide Frame, Sent, Frames;
    OneFrame(a);
    FramesAppend(Frame(a), "\0" + Frame(c));
    assert "" + ("\0" + Frame(c)) == "\0" + Frame(c);
    GarbledTail(c);
    assert [Sent(a)] + [""] == [Sent(a), ""];
  }

  lemma GarbledTail(c: string)
    requires 0 < |Sent(c)| < 0x100
    ensures Frames("\0" + Frame(c)) == [""]
  {
    hide Sent;
    var t, n := "\0" + Frame(c), |Sent(c)|;
    assert t[0] == t[1] == t[2] == t[3] == '\0' && t[4] == n as char && |t| == 5 + n;
    assert ContentLength(t) == 0;
    var rest := t[4..];
    assert t[4..4] == "" && rest[0] == n as char;
    assert |rest| == 1 + n;
    if |rest| >= HEADER_SIZE { assert ContentLength(rest) >= 0x100_0000; }
    assert Frames(rest) == [];
  }

  // ------------------------------------------------------------------ the run

  /** The first call goes through; one byte of the second header is written and
      then the write fails; everything after that goes through. */
  ghost predicate HidesOneByte(w: World, first: string, reply: string)
  {
    && PromptAt(w.kernel, 1000, 0) && PromptAt(w.kernel, 1000, 1) && PromptAt(w.kernel, 1000, 2) && PromptAt(w.kernel, 1000, 3)
    && w.kernel(4) == BestEffort.Attempt(0, 1, Moved(1)) && w.kernel(5) == BestEffort.Attempt(0, 1, Fatal)
    && PromptAt(w.kernel, 1000, 6) && PromptAt(w.kernel, 1000, 7) && PromptAt(w.kernel, 1000, 8) && PromptAt(w.kernel, 1000, 9)
    && w.serve(0, Sent(first)) == Some(reply) && w.serve(1, "") == Some(reply)
    && HEADER_SIZE + |Sent(reply)| <= CALL_BUFFER
  }

  /** A call that meets four prompt attempts. */
  lemma PromptCall(w: World, c: Client, payload: string, reply: string)
    requires Ready(w, c) && PromptAt(w.kernel, c.timeout, c.wire.clock) && PromptAt(w.kernel, c.timeout, c.wire.clock + 1)
    requires PromptAt(w.kernel, c.timeout, c.wire.clock + 2) && PromptAt(w.kernel, c.timeout, c.wire.clock + 3)
    requires w.serve(|Frames(c.wire.out)|, Sent(payload)) == Some(reply) && HEADER_SIZE + |Sent(reply)| <= CALL_BUFFER
    ensures var (outcome, c') := Call(w, c, payload);
      && outcome.Response? && Sent(reply) <= outcome.memory && Ready(w, c')
      && c' == c.(token := c.token + 1, wire := c'.wire) && c'.wire.clock == c.wire.clock + 4
      && c'.wire.out == c.wire.out + Frame(payload)
  {
    hide WriteRequest, ReadResponse, ReadAligned, Replies, CleanWrite, CleanRead, Sent, Asked, Frames, Rest, Frame, HealthOk, WireOk;
    var c1 := c.(token := c.token + 1);
    Runs.TokenIsFree(w, c, c.token + 1);
    RequestSucceeds(w, c1, payload);
    WriteAlignmentExactly(w, c1, payload);
    var c2 := WriteRequest(w, c1, payload).1;
    ReplySucceeds(w, c2, Frames(c.wire.out), Sent(payload), reply);
    ResponseIsClean(w, c1, payload);
    Runs.ExchangeAligned(w, c1, payload);
  }

  /** The second call: nothing comes of it, and nothing is noted of it. */
  lemma ByteHidden(w: World, c: Client, payload: string)
    requires Ready(w, c) && c.timeout == 1000 && c.wire.clock == 4 && |Sent(payload)| < 0x100_0000
    requires w.kernel(4) == BestEffort.Attempt(0, 1, Moved(1)) && w.kernel(5) == BestEffort.Attempt(0, 1, Fatal)
    ensures var (outcome, c') := Call(w, c, payload);
      && outcome == NoResult && ClientOk(w, c')
      && c' == c.(token := c.token + 1, wire := Wire(c.wire.out + "\0", c.wire.consumed, 6))
  {
    hide Run, Sent, Inbound, Frames, Rest, Replies;
    OneByteHides(w.kernel, HEADER_SIZE, HEADER_SIZE, 1000, MAX_RETRIES, 4);
    assert Header(|Sent(payload)|)[..1] == "\0";
  }

  /** The third: its whole frame goes out behind the byte. */
  lemma ThirdWritten(w: World, c: Client, payload: string)
    requires ClientOk(w, c) && c.timeout == 1000 && c.wire.clock == 6
    requires PromptAt(w.kernel, 1000, 6) && PromptAt(w.kernel, 1000, 7)
    ensures var (written, c') := WriteRequest(w, c, payload);
      && written && ClientOk(w, c')
      && c' == c.(wire := Wire(c.wire.out + Frame(payload), c.wire.consumed, 8))
  {
    hide Run, Header, Sent, Inbound, Frames, Rest;
    PromptRun(w.kernel, HEADER_SIZE, HEADER_SIZE, 1000, MAX_RETRIES, 6);
    PromptRun(w.kernel, |Sent(payload)|, |Sent(payload)|, 1000, MAX_RETRIES, 7);
    RequestOnWire(w, c, payload);
    FrameLength(payload, 0);
    assert Frame(payload)[..|Frame(payload)|] == Frame(payload);
  }

  /** What is there to read then: the first reply again. */
  lemma FirstReplyAgain(w: World, first: string, third: string, reply: string)
    requires HidesOneByte(w, first, reply) && 0 < |Sent(third)| < 0x100
    ensures Inbound(w, Frame(first) + "\0" + Frame(third)) == Frame(reply) + Frame(reply)
    ensures Inbound(w, Frame(first)) == Frame(reply)
  {
    hide Frame, Sent, Frames;
    assert Frame(first) + "\0" + Frame(third) == Frame(first) + ("\0" + Frame(third));
    GarbledFrames(first, third);
    OneFrame(first);
    assert [Sent(first), ""][..1] == [Sent(first)] && [Sent(first)][..0] == [];
    assert Replies(w, [Sent(first)]) == "" + Frame(reply);
    assert Replies(w, [Sent(first), ""]) == Frame(reply) + Frame(reply);
  }

  /** Two prompt reads hand out the frame they find. */
  lemma ReplyFound(w: World, c: Client, from: nat, reply: string)
    requires ClientOk(w, c) && c.timeout == 1000 && c.wire.clock == 8 && c.wire.consumed == from
    requires PromptAt(w.kernel, 1000, 8) && PromptAt(w.kernel, 1000, 9) && HEADER_SIZE + |Sent(reply)| <= CALL_BUFFER
    requires from <= |Inbound(w, c.wire.out)| && Inbound(w, c.wire.out)[from..] == Frame(reply)
    ensures var outcome := ReadResponse(w, c).0; outcome.Response? && Sent(reply) <= outcome.memory
  {
    hide Run, Header, Sent, Inbound, ContentLength;
    var all, f := Inbound(w, c.wire.out), Frame(reply);
    FrameLength(reply, HEADER_SIZE);
    assert all[from..from + HEADER_SIZE] == f[..HEADER_SIZE];
    assert all[from + HEADER_SIZE..from + HEADER_SIZE + |Sent(reply)|] == f[HEADER_SIZE..];
    PromptRun(w.kernel, HEADER_SIZE, |f|, 1000, MAX_RETRIES, 8);
    PromptRun(w.kernel, |Sent(reply)|, |Sent(reply)|, 1000, MAX_RETRIES, 9);
  }

  /** The third call is handed the response to the first. */
  lemma FirstReplyHandedOutAgain(w: World, first: string, second: string, third: string, reply: string)
    requires HidesOneByte(w, first, reply) && |Sent(second)| < 0x100_0000 && 0 < |Sent(third)| < 0x100
    ensures ClientOk(w, Fresh())
    ensures var (a, c1) := Call(w, Fresh(), first);
      var (b, c2) := Call(w, c1, second);
      var (c, c3) := Call(w, c2, third);
      && a.Response? && Sent(reply) <= a.memory && b == NoResult && c2.open
      && c.Response? && Sent(reply) <= c.memory && c2.token == 2
  {
    hide WriteRequest, ReadResponse, Frames, Rest, Frame, Sent, Inbound, Replies, ReadAligned, HealthOk, WireOk;
    FreshIsReady(w);
    PromptCall(w, Fresh(), first, reply);
    var c1 := Call(w, Fresh(), first).1;
    assert "" + Frame(first) == Frame(first);
    FirstReplyAgain(w, first, third, reply);
    ReadyIsCaughtUp(w, c1);
    ByteHidden(w, c1, second);
    var c2 := Call(w, c1, second).1;
    var c2' := c2.(token := c2.token + 1);
    ThirdWritten(w, c2', third);
    var c3 := WriteRequest(w, c2', third).1;
    assert (Frame(reply) + Frame(reply))[|Frame(reply)|..] == Frame(reply);
    ReplyFound(w, c3, |Frame(reply)|, reply);
  }

  lemma ReadyIsCaughtUp(w: World, c: Client)
    requires Ready(w, c)
    ensures c.wire.consumed == |Inbound(w, c.wire.out)|
  {
    hide Frames, Replies;
  }

  // ------------------------------------------------------ the same, of a service

  function HidingKernel(): Kernel
  {
    t => BestEffort.Attempt(0, 1, if t == 4 then Moved(1) else if t == 5 then Fatal else Moved(PLENTY))
  }

  /** The world of a service whose loop repeats its answer after an empty frame. */
  function RepeatingWorld(s: Service, reply: string): World
  {
    World((i, p) => if S.RequestText(p) then S.Reply(s, p) else Some(reply), HidingKernel(), (t, i) => 'x')
  }

  /** For every service and every first call it answers there is such a world. */
  lemma RepeatingMeets(s: Service, ask: Ask)
    requires Askable(s, 1, ask) && Accepted(s, 1, ask)
    requires HEADER_SIZE + |Dump(ResponseValue(s, 1, ask))| <= CALL_BUFFER
    ensures var reply := Dump(ResponseValue(s, 1, ask)); var w := RepeatingWorld(s, reply);
      Serves(w, s) && HidesOneByte(w, Payload(s, 1, ask), reply)
  {
    hide S.RequestText, S.Reply, Direct, EscapeClosed, PortableAnswer, RequestValue, ResponseValue, Dump, Accepted;
    RequestDecoded(s, 1, ask);
    S.EmptyIsNoRequest();
    SentWhole(Dump(ResponseValue(s, 1, ask)));
  }

  /** The third caller is handed the first caller's result, under the first id. */
  lemma SomebodyElsesResult(w: World, s: Service, first: Ask, second: Ask, third: Ask)
    requires Serves(w, s) && Askable(s, 1, first) && Askable(s, 2, second) && Askable(s, 3, third)
    requires HidesOneByte(w, Payload(s, 1, first), Dump(ResponseValue(s, 1, first)))
    requires |Payload(s, 3, third)| < 0x100
    ensures ClientOk(w, Fresh())
    ensures var c1 := Call(w, Fresh(), Payload(s, 1, first)).1;
      var c2 := Call(w, c1, Payload(s, 2, second)).1;
      var outcome := Call(w, c2, Payload(s, 3, third)).0;
      Gives(first.kind, outcome, Expected(s, first)) && Identifies(outcome, 1) && !Identifies(outcome, 3)
  {
    var reply := Dump(ResponseValue(s, 1, first));
    hide Askable, Payload, Call, Serves, HidesOneByte, Gives, ResponseValue, Sent, HealthOk, WireOk, Expected, ParseValue, Fresh;
    PayloadFits(s, 2, second);
    PayloadFits(s, 3, third);
    PayloadNotEmpty(s, 3, third);
    var p1, p2, p3 := Payload(s, 1, first), Payload(s, 2, second), Payload(s, 3, third);
    FirstReplyHandedOutAgain(w, p1, p2, p3, reply);
    var outcome := Call(w, Call(w, Call(w, Fresh(), p1).1, p2).1, p3).0;
    ResponseDecoded(s, 1, first, outcome.memory);
  }

  lemma PayloadNotEmpty(s: Service, token: int, ask: Ask)
    requires Askable(s, token, ask)
    ensures Payload(s, token, ask) != ""
  {
    hide Direct, Respond, Put, DumpMembers, EscapeClosed;
  }

  /** A service that adds, asked three times, meets all of it. */
  lemma AdderRepeats(s: Service, ask: Ask)
    requires s == Adder() && ask == TwoAndThree()
    ensures Askable(s, 1, ask) && Askable(s, 2, ask) && Askable(s, 3, ask)
    ensures var reply := Dump(ResponseValue(s, 1, ask)); var w := RepeatingWorld(s, reply);
      Serves(w, s) && HidesOneByte(w, Payload(s, 1, ask), reply) && |Payload(s, 3, ask)| < 0x100
  {
    hide RepeatingWorld, Serves, HidesOneByte, Direct, Dump, MakeRequest, ResponseValue, EscapeClosed, PortableAnswer, Put;
    CallWorks(1);
    CallWorks(2);
    CallWorks(3);
    ArgumentsPortable(3);
    RequestSize(3, "add", ask.args);
    RepeatingMeets(s, ask);
  }
}
