/** Drains that run past their buffer (trpc/detail/Health.h:91-93): exactly when a
    check can do it, and that it never happens while replies fit that buffer. */
module Overrun {
  import opened Framing
  import opened BestEffort
  import opened Connection
  import opened Alignment
  import opened Matching
  import opened Runs

  /** What is noted of an abandoned content leaves no more than the buffer holds. */
  predicate FitsDrain(h: Health) { h.state.ContentReadSome? ==> h.content - h.some <= DRAIN_BUFFER }

  // --------------------------------------------------------------- one check

  /** From there on no round of a check overruns, and it stays so. */
  lemma {:induction false} LoopStaysWithin(w: World, d: Drain, countdown: nat)
    requires DrainOk(w, d) && FitsDrain(d.health) && !d.overrun
    ensures var e := CheckLoop(w, d, countdown).1; !e.overrun && FitsDrain(e.health)
    decreases countdown
  {
    hide Inbound;
    if countdown > 0 && !d.health.state.NoRead? { LoopStaysWithin(w, DrainStep(w, d), countdown - 1); }
  }

  /** Nor when no more has arrived than the buffer holds. */
  lemma {:induction false} LittleArrived(w: World, d: Drain, countdown: nat)
    requires DrainOk(w, d) && |Inbound(w, d.wire.out)| - d.wire.consumed <= DRAIN_BUFFER && !d.overrun
    ensures !CheckLoop(w, d, countdown).1.overrun
    decreases countdown
  {
    hide Frames, Replies;
    if countdown > 0 && !d.health.state.NoRead? { LittleArrived(w, DrainStep(w, d), countdown - 1); }
  }

  lemma {:induction false} OverrunStays(w: World, d: Drain, countdown: nat)
    requires DrainOk(w, d) && d.overrun
    ensures CheckLoop(w, d, countdown).1.overrun
    decreases countdown
  {
    hide Inbound;
    if countdown > 0 && !d.health.state.NoRead? { OverrunStays(w, DrainStep(w, d), countdown - 1); }
  }

  lemma FirstStepOverruns(w: World, d: Drain)
    requires DrainOk(w, d) && !FitsDrain(d.health) && |Inbound(w, d.wire.out)| - d.wire.consumed > DRAIN_BUFFER
    requires w.kernel(d.wire.clock).io == Moved(DRAIN_BUFFER + 1)
    ensures DrainStep(w, d).overrun
  {
    hide Frames, Replies;
  }

  /** Some kernel makes a check overrun its buffer if and only if the client has
      noted a content of which more than the buffer holds is left, and has arrived. */
  lemma CheckOverrunsExactly(w: World, c: Client)
    requires ClientOk(w, c) && c.open && !c.corrupt
    ensures (exists v: World :: v.serve == w.serve && ClientOk(v, c) && Check(v, c).1.corrupt)
       <==> !FitsDrain(c.health) && |Inbound(w, c.wire.out)| - c.wire.consumed > DRAIN_BUFFER
  {
    hide DrainStep, Frames, Replies;
    forall v: World | v.serve == w.serve ensures Inbound(v, c.wire.out) == Inbound(w, c.wire.out) {
      SameReplies(w, v, Frames(c.wire.out));
    }
    if !FitsDrain(c.health) && |Inbound(w, c.wire.out)| - c.wire.consumed > DRAIN_BUFFER {
      var k: Kernel := t => Attempt(0, 1, Moved(DRAIN_BUFFER + 1));
      var v := w.(kernel := k);
      assert ClientOk(v, c);
      FirstStepOverruns(v, StartDrain(v, c));
      OverrunStays(v, DrainStep(v, StartDrain(v, c)), DEATH_COUNTDOWN - 1);
      assert Check(v, c).1.corrupt;
    } else {
      forall v: World | v.serve == w.serve && ClientOk(v, c) ensures !Check(v, c).1.corrupt {
        if FitsDrain(c.health) {
          LoopStaysWithin(v, StartDrain(v, c), DEATH_COUNTDOWN);
        } else {
          LittleArrived(v, StartDrain(v, c), DEATH_COUNTDOWN);
        }
      }
    }
  }

  lemma CheckStaysWithin(w: World, c: Client)
    requires ClientOk(w, c) && !c.corrupt && FitsDrain(c.health)
    ensures !Check(w, c).1.corrupt && FitsDrain(Check(w, c).1.health)
  {
    hide CheckLoop, Inbound;
    if c.open { LoopStaysWithin(w, StartDrain(w, c), DEATH_COUNTDOWN); }
  }

  // ---------------------------------------------------------------- one call

  /** The reply to a request, if there is one, fits the drain's buffer. */
  ghost predicate ShortAnswer(w: World, n: nat, request: string)
  {
    w.serve(n, request).Some? ==> |Sent(w.serve(n, request).value)| <= DRAIN_BUFFER
  }

  /** What is noted of a short reply fits the buffer. */
  lemma ReplyStaysWithin(w: World, c: Client, before: seq<string>, request: string)
    requires ClientOk(w, c) && Asked(w, c, before, request) && FitsDrain(c.health) && ShortAnswer(w, |before|, request)
    ensures FitsDrain(ReadResponse(w, c).1.health)
  {
    hide Run, Replies, ContentLength, Frames, Rest, Sent, Inbound;
    if Read(w, c.wire, HEADER_SIZE, c.timeout).ret == HEADER_SIZE { ReplyHeaderRead(w, c, before, request); }
  }

  lemma LooseReplyStaysWithin(w: World, c: Client, before: seq<string>, request: string)
    requires ClientOk(w, c) && LooselyAsked(w, c, before, request) && c.health.state.NoRead?
    requires ShortAnswer(w, |before|, request)
    ensures FitsDrain(ReadResponse(w, c).1.health)
  {
    hide Run, Replies, ContentLength, Frames, Rest, Sent, Inbound, Tail, ReadContent;
    if c.wire.consumed == |Replies(w, before)| {
      ReplyStaysWithin(w, c, before, request);
    } else if Read(w, c.wire, HEADER_SIZE, c.timeout).ret == HEADER_SIZE {
      TailCloses(w, c, before, request);
    }
  }

  lemma ExchangeStaysWithin(w: World, c: Client, payload: string)
    requires LooseInv(w, c) && c.open && c.health.state.NoRead? && !c.corrupt && CleanWrite(w, c)
    requires ShortAnswer(w, |Frames(c.wire.out)|, Sent(payload))
    ensures var c' := Exchange(w, c, payload).1; !c'.corrupt && FitsDrain(c'.health)
  {
    hide WriteRequest, ReadResponse, CleanWrite, Loose, Frames, LooselyAsked, Sent, ShortAnswer, HealthOk, WireOk;
    RequestLoose(w, c, payload);
    var (written, c') := WriteRequest(w, c, payload);
    if written { LooseReplyStaysWithin(w, c', Frames(c.wire.out), Sent(payload)); }
  }

  /** What a caller can see to: the header write, and short texts for replies. */
  ghost predicate ShortCall(w: World, c: Client, payload: string)
    requires ClientOk(w, c)
  {
    var (healthy, c') := Check(w, c);
    && (healthy ==> CleanWrite(w, c'.(token := c'.token + 1)))
    && TextAnswer(w, |Frames(c.wire.out)|, Sent(payload)) && ShortAnswer(w, |Frames(c.wire.out)|, Sent(payload))
  }

  /** Then the call is safe, and leaves the client so that the next is. */
  lemma ShortCallIsSafe(w: World, c: Client, payload: string)
    requires LooseInv(w, c) && !c.corrupt && FitsDrain(c.health) && ShortCall(w, c, payload)
    ensures SafeCall(w, c, payload)
    ensures var c' := Call(w, c, payload).1; LooseInv(w, c') && !c'.corrupt && FitsDrain(c'.health)
  {
    hide LooseInv, Check, Exchange, CleanWrite, Frames, TextAnswer, ShortAnswer, Sent, HealthOk, WireOk, FitsDrain;
    LooseIsOk(w, c);
    CheckStaysWithin(w, c);
    CallMatches(w, c, payload);
    CheckLoose(w, c);
    var (healthy, c') := Check(w, c);
    if healthy {
      LooseToken(w, c', c'.token + 1);
      HealthyIsOpen(w, c);
      ExchangeStaysWithin(w, c'.(token := c'.token + 1), payload);
    }
  }

  lemma LooseIsOk(w: World, c: Client)
    requires LooseInv(w, c)
    ensures ClientOk(w, c)
  {
  }

  // -------------------------------------------------------------- whole runs

  ghost predicate ShortRun(w: World, c: Client, payloads: seq<string>)
    requires ClientOk(w, c)
    decreases |payloads|
  {
    payloads == [] || (ShortCall(w, c, payloads[0]) && ShortRun(w, Call(w, c, payloads[0]).1, payloads[1..]))
  }

  /** So over whole runs replies that fit the buffer take the place of drains that do
      not overrun. */
  lemma {:induction false} ShortRunIsSafe(w: World, c: Client, payloads: seq<string>)
    requires LooseInv(w, c) && !c.corrupt && FitsDrain(c.health) && ShortRun(w, c, payloads)
    ensures SafeRun(w, c, payloads)
    decreases |payloads|
  {
    hide Call, ShortCall, SafeCall, Loose, HealthOk, WireOk, Aligned, FitsDrain;
    if payloads != [] {
      ShortCallIsSafe(w, c, payloads[0]);
      ShortRunIsSafe(w, Call(w, c, payloads[0]).1, payloads[1..]);
    }
  }

  /** Main result: matching over every run of short text replies, on every kernel,
      with nothing asked but clean header writes. */
  lemma EveryShortResponseIsOwn(w: World, c: Client, payloads: seq<string>)
    requires LooseInv(w, c) && !c.corrupt && FitsDrain(c.health) && ShortRun(w, c, payloads)
    ensures forall i | 0 <= i < |payloads| && RunCalls(w, c, payloads).0[i].Response? ::
      var b := At(w, c, payloads, i);
      Answered(w, |Frames(b.wire.out)|, Sent(payloads[i]), RunCalls(w, c, payloads).0[i])
  {
    hide LooseInv, ShortRun, SafeRun, FitsDrain, RunCalls, At, Answered, Frames, Sent;
    ShortRunIsSafe(w, c, payloads);
    EveryResponseIsOwn(w, c, payloads);
  }

  // ------------------------------------------------- the same, never off its place

  /** A clean call, overruns aside, with a short reply of any bytes. */
  ghost predicate ShortCleanCall(w: World, c: Client, payload: string)
    requires ClientOk(w, c)
  {
    var (healthy, c') := Check(w, c);
    && (c.open ==> SoundHeaders(w, StartDrain(w, c), DEATH_COUNTDOWN) || c'.health.state.Undefined?)
    && (healthy ==> CleanExchange(w, c'.(token := c'.token + 1), payload))
    && ShortAnswer(w, |Frames(c.wire.out)|, Sent(payload))
  }

  lemma CleanExchangeStaysWithin(w: World, c: Client, payload: string)
    requires Inv(w, c) && c.open && c.health.state.NoRead? && !c.corrupt && CleanWrite(w, c)
    requires ShortAnswer(w, |Frames(c.wire.out)|, Sent(payload))
    ensures var c' := Exchange(w, c, payload).1; !c'.corrupt && FitsDrain(c'.health)
  {
    hide WriteRequest, ReadResponse, CleanWrite, Replies, Frames, Asked, Sent, ShortAnswer, HealthOk, WireOk;
    RequestAligned(w, c, payload);
    var (written, c') := WriteRequest(w, c, payload);
    if written { ReplyStaysWithin(w, c', Frames(c.wire.out), Sent(payload)); }
  }

  lemma ShortCleanCallIsClean(w: World, c: Client, payload: string)
    requires ClientOk(w, c) && Inv(w, c) && !c.corrupt && FitsDrain(c.health) && ShortCleanCall(w, c, payload)
    ensures CleanCall(w, c, payload)
    ensures var c' := Call(w, c, payload).1; Inv(w, c') && !c'.corrupt && FitsDrain(c'.health)
  {
    hide Inv, Check, Exchange, CleanWrite, CleanRead, SoundHeaders, Frames, ShortAnswer, Sent, HealthOk, WireOk, FitsDrain,
      WriteRequest;
    CheckStaysWithin(w, c);
    CallAligned(w, c, payload);
    CheckAligned(w, c);
    var (healthy, c') := Check(w, c);
    if healthy {
      TokenIsFree(w, c', c'.token + 1);
      HealthyIsOpen(w, c);
      CleanExchangeStaysWithin(w, c'.(token := c'.token + 1), payload);
    }
  }

  ghost predicate ShortCleanRun(w: World, c: Client, payloads: seq<string>)
    requires ClientOk(w, c)
    decreases |payloads|
  {
    payloads == [] || (ShortCleanCall(w, c, payloads[0]) && ShortCleanRun(w, Call(w, c, payloads[0]).1, payloads[1..]))
  }

  lemma {:induction false} ShortRunIsClean(w: World, c: Client, payloads: seq<string>)
    requires Inv(w, c) && !c.corrupt && FitsDrain(c.health) && ShortCleanRun(w, c, payloads)
    ensures CleanRun(w, c, payloads)
    decreases |payloads|
  {
    hide Call, ShortCleanCall, CleanCall, ReadAligned, HealthOk, WireOk, Aligned, FitsDrain;
    if payloads != [] {
      ShortCleanCallIsClean(w, c, payloads[0]);
      ShortRunIsClean(w, Call(w, c, payloads[0]).1, payloads[1..]);
    }
  }
}
