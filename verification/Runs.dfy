/** Whole runs of calls on one connection: answers match requests although ids are
    never compared, dead connections stay dead, and the three things that break
    alignment, each with the exact condition under which it can happen. */
module Runs {
  import opened Framing
  import opened BestEffort
  import opened Connection
  import opened Alignment

  // ----------------------------------------------------------------- one call

  lemma ExchangeAligned(w: World, c: Client, payload: string)
    requires Inv(w, c) && c.open && c.health.state.NoRead? && !c.corrupt && CleanExchange(w, c, payload)
    ensures var (outcome, c') := Exchange(w, c, payload);
      Inv(w, c') && (outcome.Response? ==> Answered(w, |Frames(c.wire.out)|, Sent(payload), outcome))
  {
    hide WriteRequest, ReadResponse, CleanWrite, CleanRead, Answered, Frames, Replies, Asked, Sent;
    RequestAligned(w, c, payload);
    var (written, c') := WriteRequest(w, c, payload);
    if written { ReplyAligned(w, c', Frames(c.wire.out), Sent(payload)); }
  }

  lemma TokenIsFree(w: World, c: Client, token: int)
    requires Inv(w, c)
    ensures Inv(w, c.(token := token))
  {
  }

  /** A call keeps the invariant, and a result is the server's answer to this
      very request: the one at this place in the stream. */
  lemma CallAligned(w: World, c: Client, payload: string)
    requires ClientOk(w, c) && Inv(w, c) && CleanCall(w, c, payload)
    ensures var (outcome, c') := Call(w, c, payload);
      Inv(w, c') && (outcome.Response? ==> Answered(w, |Frames(c.wire.out)|, Sent(payload), outcome))
  {
    hide Inv, Check, Exchange, CleanCheck, CleanExchange, Answered, Frames;
    CheckAligned(w, c);
    var (healthy, c') := Check(w, c);
    if healthy {
      TokenIsFree(w, c', c'.token + 1);
      ExchangeAligned(w, c'.(token := c'.token + 1), payload);
    }
  }

  // ---------------------------------------------------------------- every run

  function RunCalls(w: World, c: Client, payloads: seq<string>): (r: (seq<Outcome>, Client))
    requires ClientOk(w, c)
    ensures |r.0| == |payloads|
    decreases |payloads|
  {
    if payloads == [] then ([], c)
    else
      var (outcome, c1) := Call(w, c, payloads[0]);
      var (outcomes, c2) := RunCalls(w, c1, payloads[1..]);
      ([outcome] + outcomes, c2)
  }

  ghost predicate CleanRun(w: World, c: Client, payloads: seq<string>)
    requires ClientOk(w, c)
    decreases |payloads|
  {
    payloads == [] || (CleanCall(w, c, payloads[0]) && CleanRun(w, Call(w, c, payloads[0]).1, payloads[1..]))
  }

  /** The client just before the i-th call of a run. */
  function At(w: World, c: Client, payloads: seq<string>, i: nat): (c': Client)
    requires ClientOk(w, c) && i <= |payloads|
    ensures ClientOk(w, c')
    decreases i
  {
    if i == 0 then c else At(w, Call(w, c, payloads[0]).1, payloads[1..], i - 1)
  }

  /** Main result. In every run, whatever arrives late, short or never, each call
      that yields a response yields the answer to its own request, and the
      invariant holds at every call boundary. */
  lemma {:induction false} EveryRunMatches(w: World, c: Client, payloads: seq<string>)
    requires Inv(w, c) && CleanRun(w, c, payloads)
    ensures forall i | 0 <= i <= |payloads| :: Inv(w, At(w, c, payloads, i))
    ensures forall i | 0 <= i < |payloads| && RunCalls(w, c, payloads).0[i].Response? ::
      var b := At(w, c, payloads, i);
      Answered(w, |Frames(b.wire.out)|, Sent(payloads[i]), RunCalls(w, c, payloads).0[i])
    decreases |payloads|
  {
    hide Call, CleanCall, ReadAligned, HealthOk, WireOk, Aligned, Answered, Frames, Sent;
    if payloads != [] {
      CallAligned(w, c, payloads[0]);
      var (c1, rest) := (Call(w, c, payloads[0]).1, payloads[1..]);
      EveryRunMatches(w, c1, rest);
      forall i | 0 < i <= |payloads| ensures Inv(w, At(w, c, payloads, i)) {
        assert At(w, c, payloads, i) == At(w, c1, rest, i - 1);
      }
      forall i | 0 < i < |payloads| && RunCalls(w, c, payloads).0[i].Response?
        ensures var b := At(w, c, payloads, i);
          Answered(w, |Frames(b.wire.out)|, Sent(payloads[i]), RunCalls(w, c, payloads).0[i])
      {
        assert At(w, c, payloads, i) == At(w, c1, rest, i - 1);
        assert RunCalls(w, c, payloads).0[i] == RunCalls(w, c1, rest).0[i - 1];
        assert payloads[i] == rest[i - 1];
      }
    }
  }

  // ---------------------------------------------------------------------- ids

  /** A call takes a token if and only if its check passes; one that does not writes
      nothing either. */
  lemma CallTakesToken(w: World, c: Client, payload: string)
    requires ClientOk(w, c)
    ensures Call(w, c, payload).1.token == c.token + if Check(w, c).0 then 1 else 0
    ensures !Check(w, c).0 ==> Call(w, c, payload).1.wire.out == c.wire.out && Call(w, c, payload).0 == NoResult
  {
    hide CheckLoop, WriteRequest, ReadResponse, HealthOk, WireOk;
  }

  lemma {:induction false} TokensGrow(w: World, c: Client, payloads: seq<string>, i: nat)
    requires ClientOk(w, c) && i <= |payloads|
    ensures c.token <= At(w, c, payloads, i).token
    ensures i > 0 && Check(w, c).0 ==> c.token < At(w, c, payloads, i).token
    decreases i
  {
    hide Call, Check, HealthOk, WireOk;
    if i > 0 {
      CallTakesToken(w, c, payloads[0]);
      TokensGrow(w, Call(w, c, payloads[0]).1, payloads[1..], i - 1);
    }
  }

  /** The i-th call of a run, and what is left of the run there. */
  lemma {:induction false} AtLater(w: World, c: Client, payloads: seq<string>, i: nat, j: nat)
    requires ClientOk(w, c) && i <= j <= |payloads|
    ensures At(w, c, payloads, j) == At(w, At(w, c, payloads, i), payloads[i..], j - i)
    decreases i
  {
    hide Call, HealthOk, WireOk;
    if i > 0 {
      AtLater(w, Call(w, c, payloads[0]).1, payloads[1..], i - 1, j - 1);
      assert payloads[1..][i - 1..] == payloads[i..];
    } else {
      assert payloads[0..] == payloads;
    }
  }

  /** No two requests of a run carry the same id, whatever became of them. */
  lemma EveryRequestHasItsId(w: World, c: Client, payloads: seq<string>, i: nat, j: nat)
    requires ClientOk(w, c) && i < j < |payloads|
    requires Check(w, At(w, c, payloads, i)).0 && Check(w, At(w, c, payloads, j)).0
    ensures At(w, c, payloads, i).token + 1 != At(w, c, payloads, j).token + 1
  {
    hide Call, Check, HealthOk, WireOk;
    AtLater(w, c, payloads, i, j);
    TokensGrow(w, At(w, c, payloads, i), payloads[i..], j - i);
  }

  // ------------------------------------------- whole requests at every boundary

  /** Every header write of the run, of calls whose check passes, is clean. */
  ghost predicate CleanWrites(w: World, c: Client, payloads: seq<string>)
    requires ClientOk(w, c)
    decreases |payloads|
  {
    payloads == [] ||
    var (healthy, c') := Check(w, c);
    && (healthy ==> CleanWrite(w, c'.(token := c'.token + 1)))
    && CleanWrites(w, Call(w, c, payloads[0]).1, payloads[1..])
  }

  /** An open client has written whole requests. */
  ghost predicate WholeRequests(c: Client) { c.open ==> Aligned(c.wire.out) }

  lemma ExchangeWritesWhole(w: World, c: Client, payload: string)
    requires ClientOk(w, c) && c.open && Aligned(c.wire.out)
    ensures WholeRequests(Exchange(w, c, payload).1) <==> CleanWrite(w, c)
  {
    hide WriteRequest, ReadResponse, Aligned, CleanWrite, HealthOk, WireOk, Frames, Sent, Frame;
    WriteAlignmentExactly(w, c, payload);
    var (written, c') := WriteRequest(w, c, payload);
    if written { WrittenIsClean(w, c, payload); }
    if !c'.open { ClosingIsClean(w, c, payload); }
  }

  /** One call from whole requests leaves whole requests if and only if its header
      write, if there is one, was clean. */
  lemma CallWritesWhole(w: World, c: Client, payload: string)
    requires ClientOk(w, c) && WholeRequests(c)
    ensures var (healthy, c') := Check(w, c);
      WholeRequests(Call(w, c, payload).1) <==> (healthy ==> CleanWrite(w, c'.(token := c'.token + 1)))
  {
    hide CheckLoop, Exchange, Aligned, CleanWrite, HealthOk, WireOk;
    var (healthy, c') := Check(w, c);
    if healthy { ExchangeWritesWhole(w, c'.(token := c'.token + 1), payload); }
  }

  lemma WrittenIsClean(w: World, c: Client, payload: string)
    requires ClientOk(w, c) && WriteRequest(w, c, payload).0
    ensures CleanWrite(w, c)
  {
    hide Run, Header, Sent, Inbound;
  }

  lemma ClosingIsClean(w: World, c: Client, payload: string)
    requires ClientOk(w, c) && c.open && !WriteRequest(w, c, payload).1.open
    ensures CleanWrite(w, c)
  {
    hide Run, Header, Sent, Inbound;
  }

  /** Main result for the write side, over every run whatever its reads and replies:
      an open client has written whole requests at every call boundary if and only
      if no header write hid its progress. */
  lemma {:induction false} EveryBoundaryIsWhole(w: World, c: Client, payloads: seq<string>)
    requires ClientOk(w, c) && WholeRequests(c)
    ensures (forall i | 0 <= i <= |payloads| :: WholeRequests(At(w, c, payloads, i))) <==> CleanWrites(w, c, payloads)
    decreases |payloads|
  {
    hide Call, Check, CleanWrite, WholeRequests, HealthOk, WireOk;
    assert At(w, c, payloads, 0) == c;
    if payloads != [] {
      var (c1, rest) := (Call(w, c, payloads[0]).1, payloads[1..]);
      CallWritesWhole(w, c, payloads[0]);
      forall i | 0 < i <= |payloads| ensures At(w, c, payloads, i) == At(w, c1, rest, i - 1) {}
      assert At(w, c, payloads, 1) == At(w, c1, rest, 0) == c1;
      if WholeRequests(c1) {
        EveryBoundaryIsWhole(w, c1, rest);
        if CleanWrites(w, c1, rest) {
          forall i | 0 <= i <= |payloads| ensures WholeRequests(At(w, c, payloads, i)) {
            if i > 0 { assert WholeRequests(At(w, c1, rest, i - 1)); }
          }
        } else {
          var j :| 0 <= j <= |rest| && !WholeRequests(At(w, c1, rest, j));
          assert At(w, c, payloads, j + 1) == At(w, c1, rest, j);
        }
      } else {
        assert !WholeRequests(At(w, c, payloads, 1));
      }
    }
  }

  // -------------------------------------------------------------- fail closed

  predicate Dead(c: Client) { !c.open || c.health.state.Undefined? }

  /** A closed or undefined connection never speaks again: no later call yields
      anything, writes a byte or reads one. */
  lemma {:induction false} DeadForever(w: World, c: Client, payloads: seq<string>)
    requires ClientOk(w, c) && Dead(c)
    ensures RunCalls(w, c, payloads).1 == c
    ensures forall i | 0 <= i < |payloads| :: RunCalls(w, c, payloads).0[i] == NoResult
    decreases |payloads|
  {
    if payloads != [] {
      if c.open { UndefinedLoop(w, StartDrain(w, c), DEATH_COUNTDOWN); }
      assert Call(w, c, payloads[0]) == (NoResult, c);
      DeadForever(w, c, payloads[1..]);
    }
  }

  /** How much of a drain is left: stages to go, bytes to go in this one. */
  function StagesLeft(h: Health): nat
  {
    match h.state case HeaderReadSome => 2 case ContentReadSome => 1 case _ => 0
  }

  function BytesLeft(h: Health): int
  {
    match h.state case HeaderReadSome => HEADER_SIZE - h.some case ContentReadSome => h.content - h.some case _ => 0
  }

  /** Every drain read shortens the stage it is in, moves on to the next, or ends
      the connection. */
  lemma DrainAdvances(w: World, d: Drain)
    requires DrainOk(w, d) && (d.health.state.HeaderReadSome? || d.health.state.ContentReadSome?)
    ensures var e := DrainStep(w, d);
      && e.syscalls == d.syscalls + 1
      && (StagesLeft(e.health) < StagesLeft(d.health)
          || (StagesLeft(e.health) == StagesLeft(d.health) && 0 < BytesLeft(e.health) < BytesLeft(d.health)))
      && (!e.health.state.Undefined? ==> d.wire.consumed < e.wire.consumed)
  {
    hide Inbound, ContentLength;
  }

  /** A check passes only on an open socket with nothing left to drain, and it
      drained that in at most five reads, each of which took something. */
  lemma CheckFailsClosed(w: World, c: Client)
    requires ClientOk(w, c)
    ensures Check(w, c).0 ==> c.open && Check(w, c).1.health.state.NoRead?
    ensures Check(w, c).1.wire.out == c.wire.out
    ensures c.open && Check(w, c).0 ==>
      var d := CheckLoop(w, StartDrain(w, c), DEATH_COUNTDOWN).1;
      d.syscalls <= DEATH_COUNTDOWN && c.wire.consumed + d.syscalls <= d.wire.consumed == Check(w, c).1.wire.consumed
  {
    hide Inbound, DrainStep, HealthOk;
    if c.open { LoopTakes(w, StartDrain(w, c), DEATH_COUNTDOWN); }
  }

  lemma {:induction false} LoopTakes(w: World, d: Drain, countdown: nat)
    requires DrainOk(w, d)
    ensures var (healthy, e) := CheckLoop(w, d, countdown);
      healthy ==> d.wire.consumed + e.syscalls - d.syscalls <= e.wire.consumed
    decreases countdown
  {
    hide DrainStep, Inbound;
    if countdown > 0 && !d.health.state.NoRead? {
      if d.health.state.Undefined? { UndefinedLoop(w, d, countdown); } else {
        DrainAdvances(w, d);
        var e := DrainStep(w, d);
        if e.health.state.Undefined? { UndefinedLoop(w, e, countdown - 1); }
        LoopTakes(w, e, countdown - 1);
      }
    }
  }

  // ---------------------------------------- split headers, exactly (Health.h:80)

  /** Right for every header and every stale buffer exactly when nothing of the
      header was read before. */
  lemma SplitHeaderExactly(some: nat)
    requires some < HEADER_SIZE
    ensures (forall header: string, stale: string | |header| == HEADER_SIZE && |stale| == DRAIN_BUFFER ::
               DrainedLength(header, some, stale) == ContentLength(header)) <==> some == 0
  {
    if some == 0 {
      forall header: string, stale: string | |header| == HEADER_SIZE && |stale| == DRAIN_BUFFER
        ensures DrainedLength(header, some, stale) == ContentLength(header)
      {
        assert Stored(stale, 0, header[some..])[..HEADER_SIZE] == header[..HEADER_SIZE];
        SameHeader(Stored(stale, 0, header[some..]), header);
      }
    } else {
      var header := [1 as char] + seq(3, i => '\0');
      var stale := seq(DRAIN_BUFFER, i => '\0');
      var buf := Stored(stale, 0, header[some..]);
      assert buf[0] == buf[1] == buf[2] == buf[3] == '\0';
      assert ContentLength(buf) == 0 && ContentLength(header) == 0x100_0000;
      assert DrainedLength(header, some, stale) != ContentLength(header);
    }
  }

  function Zeros(): string { seq(DRAIN_BUFFER, i => '\0') }

  lemma DrainedBytes(header: string, some: nat, stale: string)
    requires |header| == HEADER_SIZE && some <= HEADER_SIZE && |stale| == DRAIN_BUFFER
    ensures var buf := Stored(stale, 0, header[some..]);
      |buf| == DRAIN_BUFFER && forall i | 0 <= i < HEADER_SIZE :: buf[i] == if i < HEADER_SIZE - some then header[some + i] else stale[i]
  {
  }

  /** When a split header goes unnoticed: some stale buffer makes the length wrong
      but small enough to be believed, if and only if the header was split and its
      last bytes, moved to the front, are small enough by themselves. */
  lemma SplitGoesUnnoticedExactly(header: string, some: nat)
    requires |header| == HEADER_SIZE && some < HEADER_SIZE
    ensures (exists stale: string | |stale| == DRAIN_BUFFER ::
               DrainedLength(header, some, stale) <= DRAIN_BUFFER && DrainedLength(header, some, stale) != ContentLength(header))
       <==> some > 0 && DrainedLength(header, some, Zeros()) <= DRAIN_BUFFER
  {
    hide DrainedLength, ContentLength;
    forall stale: string | |stale| == DRAIN_BUFFER
      ensures DrainedLength(header, some, Zeros()) <= DrainedLength(header, some, stale)
      ensures some == 0 ==> DrainedLength(header, some, stale) == ContentLength(header)
    {
      ZerosAreLeast(header, some, stale);
    }
    if some > 0 && DrainedLength(header, some, Zeros()) <= DRAIN_BUFFER { TwoLengths(header, some); }
  }

  lemma ZerosAreLeast(header: string, some: nat, stale: string)
    requires |header| == HEADER_SIZE && some < HEADER_SIZE && |stale| == DRAIN_BUFFER
    ensures DrainedLength(header, some, Zeros()) <= DrainedLength(header, some, stale)
    ensures some == 0 ==> DrainedLength(header, some, stale) == ContentLength(header)
  {
    DrainedBytes(header, some, stale);
    DrainedBytes(header, some, Zeros());
  }

  lemma TwoLengths(header: string, some: nat)
    requires |header| == HEADER_SIZE && 0 < some < HEADER_SIZE && DrainedLength(header, some, Zeros()) <= DRAIN_BUFFER
    ensures |Zeros()[HEADER_SIZE - 1 := 1 as char]| == DRAIN_BUFFER
    ensures DrainedLength(header, some, Zeros()[HEADER_SIZE - 1 := 1 as char]) == DrainedLength(header, some, Zeros()) + 1
    ensures DrainedLength(header, some, Zeros()) == DRAIN_BUFFER ==> ContentLength(header) != DRAIN_BUFFER
  {
    DrainedBytes(header, some, Zeros()[HEADER_SIZE - 1 := 1 as char]);
    DrainedBytes(header, some, Zeros());
  }

  // --------------------------------- hidden progress, exactly (bestEffort.h:44)

  ghost predicate Misaligns(w: World, c: Client, payload: string)
    requires ClientOk(w, c)
  {
    var (written, c') := WriteRequest(w, c, payload);
    !written && c'.open && c'.health == c.health && !Aligned(c'.wire.out)
  }

  /** From whole frames: some kernel makes the next request fail, leaves the socket
      open and the client healthy, and leaves a cut header on the wire, if and only
      if the timeout is not negative. */
  lemma WritesCanMisalign(w: World, c: Client, payload: string)
    requires ClientOk(w, c) && c.open && Aligned(c.wire.out)
    ensures (exists v: World :: v.serve == w.serve && ClientOk(v, c) && Misaligns(v, c, payload)) <==> c.timeout >= 0
  {
    hide Run, Replies, Frames, Rest;
    ProgressCanHide(HEADER_SIZE, HEADER_SIZE, c.timeout, MAX_RETRIES, c.wire.clock);
    if c.timeout >= 0 {
      var k: Kernel :| HidesProgress(Run(k, HEADER_SIZE, HEADER_SIZE, c.timeout, MAX_RETRIES, c.wire.clock));
      var v := w.(kernel := k);
      SameReplies(w, v, Frames(c.wire.out));
      assert ClientOk(v, c);
      WriteAlignmentExactly(v, c, payload);
      assert Misaligns(v, c, payload);
    } else {
      forall v: World | ClientOk(v, c) ensures !Misaligns(v, c, payload) { WriteAlignmentExactly(v, c, payload); }
    }
  }

  lemma {:induction false} SameReplies(w: World, v: World, requests: seq<string>)
    requires w.serve == v.serve
    ensures Replies(w, requests) == Replies(v, requests)
    decreases |requests|
  {
    if requests != [] { SameReplies(w, v, requests[..|requests| - 1]); }
  }

  /** With a request outstanding: some kernel makes the client lose its place in the
      replies if and only if there is a reply and the timeout is not negative. */
  lemma ReadsCanMisalign(w: World, c: Client, before: seq<string>, request: string)
    requires ClientOk(w, c) && Asked(w, c, before, request) && c.health.state.NoRead? && !c.corrupt
    ensures (exists v: World :: v.serve == w.serve && ClientOk(v, c) && !Inv(v, ReadResponse(v, c).1))
       <==> w.serve(|before|, request).Some? && c.timeout >= 0
  {
    hide Run, Replies, Rest, Sent, ReadContent, ContentLength;
    var have := |Inbound(w, c.wire.out)| - c.wire.consumed;
    LastReply(w, before + [request]);
    ProgressCanHide(HEADER_SIZE, have, c.timeout, MAX_RETRIES, c.wire.clock);
    if w.serve(|before|, request).Some? && c.timeout >= 0 {
      FrameLength(w.serve(|before|, request).value, 0);
      var k: Kernel :| HidesProgress(Run(k, HEADER_SIZE, have, c.timeout, MAX_RETRIES, c.wire.clock));
      var v := w.(kernel := k);
      HiddenRead(w, v, c, before, request);
      assert !Inv(v, ReadResponse(v, c).1);
    } else {
      forall v: World | v.serve == w.serve && ClientOk(v, c) ensures Inv(v, ReadResponse(v, c).1) {
        NothingHides(w, v, c, before, request);
      }
    }
  }

  lemma HiddenRead(w: World, v: World, c: Client, before: seq<string>, request: string)
    requires ClientOk(w, c) && Asked(w, c, before, request) && c.health.state.NoRead? && !c.corrupt
    requires v.serve == w.serve
    requires HidesProgress(Run(v.kernel, HEADER_SIZE, |Inbound(w, c.wire.out)| - c.wire.consumed, c.timeout, MAX_RETRIES, c.wire.clock))
    ensures ClientOk(v, c) && !Inv(v, ReadResponse(v, c).1)
  {
    hide Run, Replies, Rest, Sent, ReadResponse;
    SameReplies(w, v, Frames(c.wire.out));
    SameReplies(w, v, before);
    ReplyAligned(v, c, before, request);
  }

  lemma NothingHides(w: World, v: World, c: Client, before: seq<string>, request: string)
    requires ClientOk(w, c) && Asked(w, c, before, request) && c.health.state.NoRead? && !c.corrupt
    requires v.serve == w.serve && ClientOk(v, c) && (w.serve(|before|, request).None? || c.timeout < 0)
    ensures Inv(v, ReadResponse(v, c).1)
  {
    hide Run, Replies, Rest, Sent, ReadResponse, ContentLength;
    SameReplies(w, v, before);
    LastReply(v, before + [request]);
    var have := |Inbound(v, c.wire.out)| - c.wire.consumed;
    ProgressCanHide(HEADER_SIZE, have, c.timeout, MAX_RETRIES, c.wire.clock);
    var t := Read(v, c.wire, HEADER_SIZE, c.timeout);
    if t.ret == HEADER_SIZE {
      var c1 := c.(wire := AfterRead(v, c.wire, t));
      ProgressCanHide(ContentLength(Got(v, c.wire, t)), |Inbound(v, c1.wire.out)| - c1.wire.consumed, c.timeout, MAX_RETRIES, c1.wire.clock);
    }
    ReplyAligned(v, c, before, request);
  }

  // ------------------------------ an overrunning round, exactly (Health.h:92)

  /** Some kernel makes one round of a drain run past its buffer exactly when more is
      left of the content than the buffer holds, and has arrived. */
  lemma DrainOverrunsExactly(w: World, d: Drain)
    requires DrainOk(w, d) && d.health.state.ContentReadSome? && !d.overrun
    ensures (exists k: Kernel :: DrainOk(w.(kernel := k), d) && DrainStep(w.(kernel := k), d).overrun)
       <==> BytesLeft(d.health) > DRAIN_BUFFER && |Inbound(w, d.wire.out)| - d.wire.consumed > DRAIN_BUFFER
  {
    hide Frames, Replies;
    forall k: Kernel ensures Inbound(w.(kernel := k), d.wire.out) == Inbound(w, d.wire.out) {
      SameReplies(w, w.(kernel := k), Frames(d.wire.out));
    }
    if BytesLeft(d.health) > DRAIN_BUFFER && |Inbound(w, d.wire.out)| - d.wire.consumed > DRAIN_BUFFER {
      var k: Kernel := t => Attempt(0, 1, Moved(DRAIN_BUFFER + 1));
      var v := w.(kernel := k);
      assert DrainOk(v, d);
      assert DrainStep(v, d).overrun;
    }
  }
}
