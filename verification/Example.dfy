/** The hypotheses of the end-to-end results can be met: one service, a call that is
    answered at once, and a run in which a reply comes late, is drained by the next
    call, and that call is answered. */
module Example {
  import opened Json
  import opened NormalForm
  import opened NulFreeText
  import opened Framing
  import opened BestEffort
  import opened Attempts
  import opened Rpc
  import opened Connection
  import opened Alignment
  import opened Matching
  import opened EndToEnd
  import opened Draining
  import opened Recovery
  import opened Traces
  import S = Server

  /** A method `add` of two integers, and nothing else. */
  function Adder(): Service
  {
    Service(map["add" := Proxy([AsInt, AsInt], Add)], Decimals(lexeme => 0, lexeme => false), v => true, v => true)
  }

  function Add(args: seq<Value>): Answer
  {
    if |args| == 2 && args[0].Int? && args[1].Int? then Returned(Int(args[0].n + args[1].n)) else OtherError
  }

  function AdderWorld(kernel: Kernel): World
  {
    World((i, p) => if S.RequestText(p) then S.Reply(Adder(), p) else None, kernel, (t, i) => 'x')
  }

  function TwoAndThree(): Ask { Ask("add", [Int(2), Int(3)], AsInt) }

  lemma AdderServes(kernel: Kernel)
    ensures Serves(AdderWorld(kernel), Adder())
  {
    hide S.RequestText, S.Reply;
  }

  lemma AnswersFive()
    ensures DecimalFree(Array(TwoAndThree().args)) && Direct(Adder(), TwoAndThree()) == Returned(Int(5))
    ensures Expected(Adder(), TwoAndThree()) == Yields(Int(5))
  {
    var kinds: seq<Kind> := [AsInt, AsInt];
    var args: seq<Value>, last: seq<Value> := [Int(2), Int(3)], [Int(3)];
    var d := Adder().decimals;
    assert kinds[1..] == [AsInt] && args[1..] == last && kinds[1..][1..] == [] && last[1..] == [];
    assert AcceptAll(d, kinds[1..][1..], last[1..]) == Some([]);
    assert Accept(d, AsInt, args[0]) == Some(args[0]) && Accept(d, AsInt, last[0]) == Some(last[0]);
    assert [last[0]] + [] == last && [args[0]] + last == args;
    assert AcceptAll(d, kinds[1..], last) == Some(last);
    assert AcceptAll(d, kinds, args) == Some(args);
    assert Add(args) == Returned(Int(5));
  }

  /** Writing a member makes an object's text longer by that member at most. */
  lemma {:induction false} PutSize(ms: seq<Member>, key: string, value: Value)
    requires PlainMembers(ms) && DecimalFree(value)
    ensures PlainMembers(Put(ms, key, value))
    ensures |DumpMembers(Put(ms, key, value))| <= |DumpMembers(ms)| + |key| + |Dump(value)| + 4
    decreases |ms|
  {
    PutPlain(ms, key, value);
    hide Dump;
    var m := Member(key, value);
    if ms == [] {
    } else if ms[0].key == key {
      assert ([m] + ms[1..])[1..] == ms[1..];
    } else if Less(key, ms[0].key) {
      assert ([m] + ms)[1..] == ms;
    } else {
      PutSize(ms[1..], key, value);
      assert ([ms[0]] + Put(ms[1..], key, value))[1..] == Put(ms[1..], key, value);
    }
  }

  /** How long a request is at most, from what the caller passes. */
  lemma RequestSize(token: int, name: string, args: seq<Value>)
    requires DecimalFree(Array(args))
    ensures DecimalFree(MakeRequest(token, name, args))
    ensures |Dump(MakeRequest(token, name, args))| <= |IntText(token)| + |name| + |Dump(Array(args))| + 60
  {
    hide Put, IntText;
    var a := Put([], "jsonrpc", Str("2.0"));
    var b := Put(a, "id", Int(token));
    var c := Put(b, "method", Str(name));
    PutSize([], "jsonrpc", Str("2.0"));
    PutSize(a, "id", Int(token));
    PutSize(b, "method", Str(name));
    PutSize(c, "params", Array(args));
  }

  /** How long a response with a result is at most. */
  lemma ResultSize(id: int, v: Plain)
    ensures DecimalFree(Object(Respond(id, Returned(v))))
    ensures |Dump(Object(Respond(id, Returned(v))))| <= |IntText(id)| + |Dump(v)| + 50
  {
    hide Put, IntText;
    var a := Put([], "jsonrpc", Str("2.0"));
    PutSize([], "jsonrpc", Str("2.0"));
    PutSize(a, "id", Int(id));
    PutSize(EmptyResponse(id), "result", v);
  }

  lemma ArgumentsPortable(token: int)
    requires 0 <= token < 10
    ensures Portable(Array(TwoAndThree().args)) && |Dump(Array(TwoAndThree().args))| == 5
    ensures |IntText(token)| == 1 && |Dump(Int(5))| == 1 && Normal(Int(5))
  {
    var es := [Int(2), Int(3)];
    assert forall i | 0 <= i < 2 :: DecimalFree(es[i]) && Normal(es[i]);
    assert es[1..] == [Int(3)];
    assert DumpElems(es) == Dump(Int(2)) + "," + Dump(Int(3));
  }

  lemma CallWorks(token: int)
    requires 0 <= token < 10
    ensures Works(Adder(), token, TwoAndThree())
  {
    hide Put, Normal, Less, Dump, MakeRequest, Respond, EscapeClosed, DecimalFree, Direct;
    AnswersFive();
    PlainTextClosed("add");
    ArgumentsPortable(token);
    RequestSize(token, "add", TwoAndThree().args);
    ResultSize(token, Int(5));
  }

  lemma FiveNulFree(token: int)
    ensures DecimalFree(Array(TwoAndThree().args)) && NulFreeValue(ResponseValue(Adder(), token, TwoAndThree()))
  {
    hide Put, Direct;
    AnswersFive();
    var a := Put([], "jsonrpc", Str("2.0"));
    PutMembers([], "jsonrpc", Str("2.0"));
    PutMembers(a, "id", Int(token));
    PutMembers(Put(a, "id", Int(token)), "result", Int(5));
    var r := ResponseValue(Adder(), token, TwoAndThree());
    assert r == Object(Put(Put(a, "id", Int(token)), "result", Int(5)));
    forall i | 0 <= i < |r.members| ensures NulFree(r.members[i].key) && NulFreeValue(r.members[i].value) {
      assert r.members[i] in r.members;
    }
  }

  lemma ResponseNulFree(token: int)
    requires 0 <= token < 10
    ensures Works(Adder(), token, TwoAndThree()) && NulFreeResponse(Adder(), token, TwoAndThree())
  {
    CallWorks(token);
    FiveNulFree(token);
    hide Adder, TwoAndThree, NulFreeValue, ResponseValue, Askable, Accepted, Dump;
  }

  // ------------------------------------------------------------ on a steady kernel

  /** Every other attempt is interrupted, or finds nothing. */
  function Uneven(): Kernel
  {
    t => BestEffort.Attempt(0, 1, if t % 4 == 0 then Intr else if t % 4 == 2 then Io.Again else Moved(PLENTY))
  }

  lemma OddGoesThrough(timeout: nat, t: nat)
    ensures t % 2 == 1 ==> PromptAt(Uneven(), timeout, t)
  {
  }

  lemma UnevenIsSteady(timeout: nat)
    ensures Steady(Uneven(), timeout, MAX_RETRIES, 0)
  {
    var k := Uneven();
    assert forall t: nat :: GoesOn(k(t), timeout);
    forall t: nat ensures PromptWithin(k, timeout, t, MAX_RETRIES) {
      OddGoesThrough(timeout, t);
      OddGoesThrough(timeout, t + 1);
    }
  }

  lemma UnevenStart(w: World, c: Client)
    requires w == AdderWorld(Uneven()) && c == Fresh()
    ensures Serves(w, Adder()) && Ready(w, c) && Steady(w.kernel, c.timeout, MAX_RETRIES, c.wire.clock)
    ensures S.StreamOk(c.wire.out)
  {
    UnevenIsSteady(1000);
    AdderServes(Uneven());
    FreshIsReady(w);
    S.EmptyIsOk();
    hide Adder, Steady, Uneven, Serves, S.StreamOk, Replies, Frames, S.Reply, S.RequestText;
  }

  lemma TwiceWorks(s: Service, ask: Ask, asks: seq<Ask>)
    requires Works(s, 1, ask) && Works(s, 2, ask) && asks == [ask, ask]
    ensures AllWork(s, 0, asks)
  {
    hide Works;
    assert forall i | 0 <= i < 2 :: Works(s, 0 + 1 + i, asks[i]);
  }

  /** A fresh client of this service meets all that the results for steady kernels ask
      for, on a kernel that is anything but prompt. */
  lemma UnevenMeetsAll(w: World, s: Service, c: Client, asks: seq<Ask>)
    requires w == AdderWorld(Uneven()) && s == Adder() && c == Fresh() && asks == [TwoAndThree(), TwoAndThree()]
    ensures Serves(w, s) && Ready(w, c) && Steady(w.kernel, c.timeout, MAX_RETRIES, c.wire.clock) && AllWork(s, c.token, asks)
    ensures S.StreamOk(c.wire.out)
  {
    UnevenStart(w, c);
    CallWorks(1);
    CallWorks(2);
    assert c.token == 0;
    hide *;
    TwiceWorks(s, TwoAndThree(), asks);
  }

  // --------------------------------------------------- a reply abandoned and drained

  /** The reply to the first request stays away until the call has given up. Then its
      content comes in two pieces, and every other attempt is interrupted. */
  function Late(): Kernel
  {
    t => if 2 <= t < 12 then BestEffort.Attempt(0, 0, Moved(PLENTY))
         else if t == 13 then BestEffort.Attempt(0, 1, Moved(1))
         else if t > 14 && t % 2 == 0 then BestEffort.Attempt(0, 1, Intr)
         else BestEffort.Attempt(0, 1, Moved(PLENTY))
  }

  /** What such a kernel brings to the check after the first call, and after it. */
  ghost predicate ComesLater(k: Kernel)
  {
    && k(12).io == Moved(PLENTY) && k(13).io == Moved(1) && k(14).io == Moved(PLENTY)
    && Steady(k, 1000, MAX_RETRIES, 12)
  }

  lemma LateIsCutShort(w: World)
    requires w.kernel == Late()
    ensures CutShort(w, 0) && PromptAt(w.kernel, 1000, 0) && PromptAt(w.kernel, 1000, 1)
  {
  }

  lemma LateComesLater()
    ensures ComesLater(Late())
  {
    var k := Late();
    assert forall t: nat | 12 <= t :: GoesOn(k(t), 1000);
    forall t: nat | 12 <= t ensures PromptWithin(k, 1000, t, MAX_RETRIES) {
      OddIsPrompt(t + 2);
      OddIsPrompt(t + 3);
    }
  }

  lemma OddIsPrompt(t: nat)
    ensures t > 13 && t % 2 == 1 ==> PromptAt(Late(), 1000, t)
  {
  }

  lemma TwoReadsBring(k: Kernel, left: nat)
    requires ComesLater(k) && 0 < left <= DRAIN_BUFFER
    ensures BringsWithin(k, 13, DEATH_COUNTDOWN - 1, left)
  {
    assert Brought(k, 13, 2) == 1 + Brought(k, 14, 1) && Brought(k, 14, 1) == PLENTY + Brought(k, 15, 0);
    assert Brings(k, 13, 2, left);
  }

  lemma FiveText()
    ensures DecimalFree(Object(Respond(1, Returned(Int(5)))))
    ensures var t := Dump(Object(Respond(1, Returned(Int(5))))); 0 < |t| <= DRAIN_BUFFER && Sent(t) == t
  {
    ArgumentsPortable(1);
    hide Respond, IntText, DumpMembers;
    ResultSize(1, Int(5));
    SentWhole(Dump(Object(Respond(1, Returned(Int(5))))));
  }

  lemma ReplyFits(s: Service, ask: Ask)
    requires s == Adder() && ask == TwoAndThree()
    ensures Works(s, 1, ask) && 0 < |Sent(Dump(ResponseValue(s, 1, ask)))| <= DRAIN_BUFFER
  {
    CallWorks(1);
    AnswersFive();
    FiveText();
    hide Direct, Respond, Works, Dump, Adder, TwoAndThree, DecimalFree, Sent;
  }

  /** The premises, one by one. */
  lemma LateStart(w: World, c: Client)
    requires w == AdderWorld(Late()) && c == Fresh()
    ensures Serves(w, Adder()) && Ready(w, c) && LooseInv(w, c) && S.StreamOk(c.wire.out)
    ensures CutShort(w, 0) && ComesLater(w.kernel) && SafeTransfers(w, c)
  {
    AdderServes(Late());
    FreshIsReady(w);
    S.EmptyIsOk();
    LateIsCutShort(w);
    LateComesLater();
    hide AdderWorld, Adder, Late, S.StreamOk, Serves, CutShort, SafeTransfers, LooseInv, Inv, ComesLater;
    ConnectedIsSafe(w);
  }

  lemma ConnectedIsSafe(w: World)
    requires Ready(w, Fresh()) && PromptAt(w.kernel, 1000, 0) && PromptAt(w.kernel, 1000, 1)
    ensures SafeTransfers(w, Fresh())
  {
    hide SafeTransfers, LooseInv, Inv;
    RequestSucceeds(w, Fresh(), "");
    ReadyIsSafe(w, Fresh());
  }

  lemma TwiceInDomain(s: Service, ask: Ask, asks: seq<Ask>)
    requires Works(s, 1, ask) && Works(s, 2, ask) && asks == [ask, ask]
    ensures Domain(s, 0, 2, asks)
  {
    hide Askable, Works;
    OfWorks(s, 1, ask);
    OfWorks(s, 2, ask);
  }

  lemma OfWorks(s: Service, token: int, ask: Ask)
    requires Works(s, token, ask)
    ensures Askable(s, token, ask)
  {
    hide Askable;
  }

  lemma LateTexts(s: Service, ask: Ask)
    requires s == Adder() && ask == TwoAndThree()
    ensures Works(s, 1, ask) && NulFreeResponse(s, 1, ask) && Works(s, 2, ask) && NulFreeResponse(s, 2, ask)
    ensures 0 < |Sent(Dump(ResponseValue(s, 1, ask)))| <= DRAIN_BUFFER
  {
    CallWorks(1);
    CallWorks(2);
    ResponseNulFree(1);
    ResponseNulFree(2);
    ReplyFits(s, ask);
  }

  /** The first call gives up; its reply can be drained; the kernel is steady then. */
  lemma FirstAbandons(w: World, s: Service, c: Client, ask: Ask)
    requires Serves(w, s) && c == Fresh() && CutShort(w, 0) && ComesLater(w.kernel) && Works(s, 1, ask)
    requires 0 < |Sent(Dump(ResponseValue(s, 1, ask)))| <= DRAIN_BUFFER
    ensures ClientOk(w, c)
    ensures var (outcome, c1) := Call(w, c, Payload(s, 1, ask));
      outcome == NoResult && Recovers(w, c1) && c1.token == 1 && CleanCall(w, c, Payload(s, 1, ask))
  {
    hide S.RequestText, S.Reply, Direct, EscapeClosed, PortableAnswer, RequestValue, ResponseValue, Call, CleanCall, Replies,
      Frames, ComesLater, Dump, CutShort, ReadAligned, Inv, Steady, Check;
    RequestDecoded(s, 1, ask);
    var payload, reply := Payload(s, 1, ask), Dump(ResponseValue(s, 1, ask));
    assert w.serve(0, payload) == Some(reply);
    FirstCallGivesUp(w, payload, reply, 0);
    ConnectedOk(w);
    WillRecover(w, Call(w, c, payload).1);
  }

  lemma WillRecover(w: World, c: Client)
    requires Abandoned(w, c) && c.health == Health(0, 0, HeaderReadSome) && c.timeout == 1000 && c.wire.clock == 12
    requires ComesLater(w.kernel)
    ensures Recovers(w, c)
  {
    hide Check, Inv, BringsWithin, Steady, Frames, Sent;
    TwoReadsBring(w.kernel, Owed(w, c.wire.out));
    SteadyLater(w.kernel, 1000, MAX_RETRIES, 12, Check(w, c).1.wire.clock);
  }

  lemma ConnectedOk(w: World)
    ensures ClientOk(w, Fresh())
  {
    FreshIsReady(w);
  }

  /** So this run, with a drain in it, meets all that the run theorems ask for, and
      its second call hands over 5. */
  lemma LateRun(w: World, s: Service, c: Client, ask: Ask, asks: seq<Ask>)
    requires w == AdderWorld(Late()) && s == Adder() && c == Fresh() && ask == TwoAndThree() && asks == [ask, ask]
    ensures Serves(w, s) && ClientOk(w, c) && LooseInv(w, c) && S.StreamOk(c.wire.out) && AbandonsOnce(w, s, c, asks)
  {
    LateStart(w, c);
    LateTexts(s, ask);
    assert c.token == 0;
    hide *;
    TwiceInDomain(s, ask, asks);
    LateRunPieces(w, s, c, ask, asks);
  }

  lemma LateRunPieces(w: World, s: Service, c: Client, ask: Ask, asks: seq<Ask>)
    requires c == Fresh() && asks == [ask, ask] && Serves(w, s) && Ready(w, c) && SafeTransfers(w, c)
    requires CutShort(w, 0) && ComesLater(w.kernel) && c.token == 0 && Domain(s, 0, 2, asks)
    requires Works(s, 1, ask) && NulFreeResponse(s, 1, ask) && Works(s, 2, ask) && NulFreeResponse(s, 2, ask)
    requires 0 < |Sent(Dump(ResponseValue(s, 1, ask)))| <= DRAIN_BUFFER
    ensures AbandonsOnce(w, s, c, asks)
  {
    hide Fresh, Call, Askable, Inv, LooseInv, ComesLater, SafeTransfers, NulFreeResponse, Domain, Payload, Works, Serves,
      CleanCall, Frames, Sent, Recovers, CutShort, Dump, Ready, ResponseValue, HealthOk, WireOk;
    FirstAbandons(w, s, c, ask);
  }
}
