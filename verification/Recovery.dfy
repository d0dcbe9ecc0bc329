/** What the drain is for: once a few reads bring what is left, a client that abandoned
    a reply drains it, and its next call works. */
module Recovery {
  import opened Json
  import opened Parser
  import opened Framing
  import opened BestEffort
  import opened Attempts
  import opened Rpc
  import opened Connection
  import opened Alignment
  import opened Matching
  import opened Overrun
  import opened Draining
  import opened EndToEnd
  import Runs

  /** A reply was abandoned before its header or inside its content, has something
      left to drain, and fits the drain's buffer. */
  ghost predicate Abandoned(w: World, c: Client)
  {
    var requests := Frames(c.wire.out);
    && ClientOk(w, c) && Inv(w, c) && c.open && !c.corrupt
    && requests != [] && Outstanding(w, requests).Some?
    && 0 < |Sent(Outstanding(w, requests).value)| <= DRAIN_BUFFER
    && (c.health.state.ContentReadSome? || (c.health.state.HeaderReadSome? && c.health.some == 0))
    && (c.health.state.ContentReadSome? ==> c.health.some < c.health.content)
  }

  /** Bytes of the outstanding reply's content. */
  ghost function Owed(w: World, out: string): nat
    requires Frames(out) != [] && Outstanding(w, Frames(out)).Some?
  {
    |Sent(Outstanding(w, Frames(out)).value)|
  }

  /** The next reads, at most four, each of which moves something, bring what is left:
      of the content, or the whole header first and then the content. */
  ghost predicate Drainable(w: World, c: Client)
    requires Abandoned(w, c)
  {
    var k, clock := w.kernel, c.wire.clock;
    if c.health.state.ContentReadSome? then BringsWithin(k, clock, DEATH_COUNTDOWN, c.health.content - c.health.some)
    else k(clock).io.Moved? && k(clock).io.n >= HEADER_SIZE
         && BringsWithin(k, clock + 1, DEATH_COUNTDOWN - 1, Owed(w, c.wire.out))
  }

  /** A header drained whole, in one read. */
  lemma HeaderDrains(w: World, d: Drain)
    requires DrainOk(w, d) && ReadAligned(w, d.wire, d.health) && !d.overrun
    requires d.health.state.HeaderReadSome? && d.health.some == 0
    requires Outstanding(w, Frames(d.wire.out)).Some? && 0 < Owed(w, d.wire.out) <= DRAIN_BUFFER
    requires w.kernel(d.wire.clock).io.Moved? && w.kernel(d.wire.clock).io.n >= HEADER_SIZE
    ensures var e := DrainStep(w, d);
      && SoundHeader(w, d) && ReadAligned(w, e.wire, e.health) && !e.overrun
      && e.health == Health(0, Owed(w, d.wire.out), ContentReadSome) && e.wire.clock == d.wire.clock + 1
  {
    hide Replies, ContentLength, Frames, Sent, Header, Frame;
    var requests := Frames(d.wire.out);
    LastReply(w, requests);
    FrameLength(Outstanding(w, requests).value, 0);
    assert DrainIo(w, d, HEADER_SIZE) == Moved(HEADER_SIZE);
    SplitDrain(w, d);
    WholeHeaderIsSound(w, d);
    DrainStepAligned(w, d);
    TrueLength(w, d);
  }

  /** A header of which nothing was read before gives the reply's own length. */
  lemma TrueLength(w: World, d: Drain)
    requires DrainOk(w, d) && Frames(d.wire.out) != [] && Outstanding(w, Frames(d.wire.out)).Some?
    ensures var n := |Sent(Outstanding(w, Frames(d.wire.out)).value)|; DrainedLength(Header(n), 0, d.buf) == n
  {
    hide Replies, ContentLength, Frames, Header, Sent;
    var n := |Sent(Outstanding(w, Frames(d.wire.out)).value)|;
    HeaderRoundTrip(n, "");
    var buf := Stored(d.buf, 0, Header(n)[0..]);
    assert Header(n) + "" == Header(n) && buf[..HEADER_SIZE] == Header(n)[..HEADER_SIZE];
    SameHeader(buf, Header(n));
  }

  /** An aligned client's content, all of which is there to be drained. */
  lemma ContentIsThere(w: World, d: Drain)
    requires DrainOk(w, d) && ReadAligned(w, d.wire, d.health) && d.health.state.ContentReadSome?
    requires d.health.some < d.health.content
    ensures ContentLeft(w, d, d.health.content - d.health.some)
  {
    hide Replies, Frames, Sent, Header, Frame;
    LastReply(w, Frames(d.wire.out));
    FrameLength(Outstanding(w, Frames(d.wire.out)).value, 0);
  }

  /** Past the header there is none to be unsound. */
  lemma {:induction false} NoHeaderLeft(w: World, d: Drain, countdown: nat)
    requires DrainOk(w, d) && !d.health.state.HeaderReadSome?
    ensures SoundHeaders(w, d, countdown)
    decreases countdown
  {
    hide Inbound, ContentLength;
    if countdown > 0 && !d.health.state.NoRead? { NoHeaderLeft(w, DrainStep(w, d), countdown - 1); }
  }

  /** From a content on, the loop of a check keeps the client's place, and passes if
      and only if the reads bring what is left. */
  lemma ContentDrains(w: World, d: Drain, countdown: nat)
    requires DrainOk(w, d) && ReadAligned(w, d.wire, d.health) && d.health.state.ContentReadSome? && !d.overrun
    requires d.health.some < d.health.content <= DRAIN_BUFFER
    ensures var (healthy, e) := CheckLoop(w, d, countdown);
      && (healthy <==> BringsWithin(w.kernel, d.wire.clock, countdown, d.health.content - d.health.some))
      && ReadAligned(w, e.wire, e.health) && !e.overrun && SoundHeaders(w, d, countdown)
  {
    hide CheckLoop, DrainStep, SoundHeaders, BringsWithin, DriesUpWithin, Inbound;
    ContentIsThere(w, d);
    hide ReadAligned;
    ContentLoopExactly(w, d, d.health.content - d.health.some, countdown);
    NoHeaderLeft(w, d, countdown);
    CheckLoopAligned(w, d, countdown);
    LoopStaysWithin(w, d, countdown);
  }

  /** The loop of a check drains all that was abandoned and passes. */
  lemma LoopDrains(w: World, c: Client)
    requires Abandoned(w, c) && Drainable(w, c)
    ensures var d := StartDrain(w, c); var (healthy, e) := CheckLoop(w, d, DEATH_COUNTDOWN);
      healthy && ReadAligned(w, e.wire, e.health) && !e.overrun && SoundHeaders(w, d, DEATH_COUNTDOWN)
  {
    hide DrainStep, SoundHeader, ReadAligned, BringsWithin, Frames, Sent, Rest, Replies;
    var d := StartDrain(w, c);
    if d.health.state.ContentReadSome? {
      ContentFits(w, c);
      ContentDrains(w, d, DEATH_COUNTDOWN);
    } else {
      HeaderDrains(w, d);
      ContentDrains(w, DrainStep(w, d), DEATH_COUNTDOWN - 1);
    }
  }

  lemma ContentFits(w: World, c: Client)
    requires Abandoned(w, c) && c.health.state.ContentReadSome?
    ensures c.health.some < c.health.content <= DRAIN_BUFFER
  {
  }

  /** So a check passes, cleanly, and leaves the client ready. */
  lemma CheckDrains(w: World, c: Client)
    requires Abandoned(w, c) && Drainable(w, c)
    ensures CleanCheck(w, c) && Check(w, c).0 && Ready(w, Check(w, c).1)
  {
    hide CheckLoop, SoundHeaders, Drainable, ReadAligned, Frames, Rest, Sent, Replies;
    LoopDrains(w, c);
    CheckAligned(w, c);
  }

  /** For an abandoned content exactly then; and its place is kept in any case. */
  lemma CheckDrainsExactly(w: World, c: Client)
    requires Abandoned(w, c) && c.health.state.ContentReadSome?
    ensures Check(w, c).0 <==> Drainable(w, c)
    ensures Inv(w, Check(w, c).1) && !Check(w, c).1.corrupt
  {
    hide CheckLoop, SoundHeaders, ReadAligned, Frames, Rest, Sent, Replies, BringsWithin;
    ContentFits(w, c);
    ContentDrains(w, StartDrain(w, c), DEATH_COUNTDOWN);
    CheckAlignedExactly(w, c);
  }

  /** What was drained before a call does not matter to it. */
  lemma CallAfterCheck(w: World, c: Client, payload: string)
    requires ClientOk(w, c) && Check(w, c).0
    ensures ClientOk(w, Check(w, c).1) && Call(w, c, payload) == Call(w, Check(w, c).1, payload)
  {
    hide CheckLoop, Exchange;
  }

  /** The reads of the check bring what is left, and the kernel is steady after it. */
  ghost predicate Recovers(w: World, c: Client)
  {
    && Abandoned(w, c) && Drainable(w, c)
    && Steady(w.kernel, c.timeout, MAX_RETRIES, Check(w, c).1.wire.clock)
  }

  /** Main result: then the call after an abandoned reply hands over what was
      expected. */
  lemma CallRecovers(w: World, s: Service, c: Client, ask: Ask)
    requires Recovers(w, c) && Askable(s, c.token + 1, ask)
    requires Serves(w, s) && Works(s, c.token + 1, ask)
    ensures HandsOver(w, s, c, ask)
  {
    hide Check, Call, Askable, Accepted, Dump, Inv, Gives, Identifies, Expected, Steady, RequestValue, ResponseValue,
      Frames, Sent, Payload, Drainable;
    CheckDrains(w, c);
    var c1 := Check(w, c).1;
    CallHandsOver(w, s, c1, ask);
    CallAfterCheck(w, c, Payload(s, c.token + 1, ask));
  }

  /** It is also safe. */
  lemma RecoveryIsSafe(w: World, c: Client)
    requires Recovers(w, c)
    ensures ClientOk(w, c) && SafeTransfers(w, c)
  {
    hide Check, Steady, Inv, HealthOk, WireOk, WriteRequest, CleanWrite, Frames, Sent, LooseInv, Drainable;
    CheckDrains(w, c);
    var c1 := Check(w, c).1;
    Runs.TokenIsFree(w, c1, c1.token + 1);
    RequestGetsThrough(w, c1.(token := c1.token + 1), "");
  }

  /** A run of two calls whose first abandons its reply, and whose second finds it. */
  ghost predicate AbandonsOnce(w: World, s: Service, c: Client, asks: seq<Ask>)
  {
    && |asks| == 2 && ClientOk(w, c) && Domain(s, c.token, 2, asks)
    && SafeTransfers(w, c) && NulFreeResponse(s, c.token + 1, asks[0])
    && var (outcome, c1) := NextCall(w, s, c, 2, asks);
       && CleanCall(w, c, Payload(s, c.token + 1, asks[0])) && outcome == NoResult
       && Recovers(w, c1)
       && Works(s, c1.token + 1, asks[1]) && NulFreeResponse(s, c1.token + 1, asks[1])
  }

  /** It meets what the run theorems ask for, and its second call hands over. */
  lemma RunRecovers(w: World, s: Service, c: Client, asks: seq<Ask>)
    requires Serves(w, s) && AbandonsOnce(w, s, c, asks)
    ensures AllSafe(w, s, c, 2, asks) && AllClean(w, s, c, 2, asks)
    ensures var c1 := NextCall(w, s, c, 2, asks).1; Askable(s, c1.token + 1, asks[1]) && HandsOver(w, s, c1, asks[1])
  {
    hide Call, Askable, Inv, Recovers, SafeTransfers, NulFreeResponse, Domain, Payload, Works, Serves, CleanCall, CleanCheck,
      HealthOk, WireOk, HandsOver;
    var c1 := NextCall(w, s, c, 2, asks).1;
    var rest := asks[1..];
    assert rest[0] == asks[1] && rest[1..] == [];
    NextCallAskable(w, s, c1, 1, rest);
    RecoveredCall(w, s, c1, asks[1]);
    OneCall(w, s, c1, rest);
  }

  /** The call that drains hands over, and is safe and clean. */
  lemma RecoveredCall(w: World, s: Service, c: Client, ask: Ask)
    requires ClientOk(w, c) && Askable(s, c.token + 1, ask)
    requires Recovers(w, c) && Serves(w, s) && Works(s, c.token + 1, ask)
    ensures HandsOver(w, s, c, ask) && SafeTransfers(w, c) && CleanCall(w, c, Payload(s, c.token + 1, ask))
  {
    hide Call, Askable, Inv, SafeTransfers, Payload, Works, Serves, CleanCall, CleanCheck, HealthOk, WireOk,
      HandsOver, Check, Ready, Steady, Drainable;
    RecoveryIsSafe(w, c);
    CheckDrains(w, c);
    CallRecovers(w, s, c, ask);
    HandsOverResponds(w, s, c, ask);
    AnswerKeepsInv(w, c, Payload(s, c.token + 1, ask));
  }

  lemma OneCall(w: World, s: Service, c: Client, asks: seq<Ask>)
    requires |asks| == 1 && ClientOk(w, c) && Domain(s, c.token, 1, asks)
    requires SafeTransfers(w, c) && NulFreeResponse(s, c.token + 1, asks[0])
    requires Askable(s, c.token + 1, asks[0]) && CleanCall(w, c, Payload(s, c.token + 1, asks[0]))
    ensures AllSafe(w, s, c, 1, asks) && AllClean(w, s, c, 1, asks)
  {
    hide Call, Askable, SafeTransfers, NulFreeResponse, Domain, Payload, CleanCall, HealthOk, WireOk;
    var (_, c1) := NextCall(w, s, c, 1, asks);
    assert asks[1..] == [];
    assert AllSafe(w, s, c1, 0, asks[1..]) && AllClean(w, s, c1, 0, asks[1..]);
  }

  lemma HandsOverResponds(w: World, s: Service, c: Client, ask: Ask)
    requires ClientOk(w, c) && Askable(s, c.token + 1, ask) && HandsOver(w, s, c, ask)
    ensures Call(w, c, Payload(s, c.token + 1, ask)).0.Response?
  {
    hide Call, Expected, Ready, Askable, Payload, HealthOk, WireOk, ParseValue, MakeResult, DecimalFree;
  }

  lemma NextCallAskable(w: World, s: Service, c: Client, n: nat, asks: seq<Ask>)
    requires ClientOk(w, c) && Domain(s, c.token, n, asks) && asks != []
    ensures Askable(s, c.token + 1, asks[0])
  {
    hide Askable;
    DomainStep(s, c.token, n, asks, c.token);
  }
}
