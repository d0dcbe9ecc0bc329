/** Runs from a client that has just connected: one in which a split header costs it
    its place, and what a silent kernel makes of a call. */
module Traces {
  import opened Json
  import opened Framing
  import opened BestEffort
  import opened Connection
  import opened Alignment
  import opened Matching
  import opened Overrun
  import opened EndToEnd
  import Runs

  /** A client that has just connected. */
  function Fresh(): Client
  {
    Client(true, Health(0, 0, NoRead), 0, 1000, Wire("", 0, 0), false)
  }

  lemma FreshIsReady(w: World)
    ensures ClientOk(w, Fresh()) && Ready(w, Fresh()) && LooseInv(w, Fresh()) && Frames(Fresh().wire.out) == []
  {
    CaughtUpIsLoose(w, Fresh());
  }

  // ----------------------------------------------------- a call without its reply

  /** The request of a fresh client goes out, then `n` bytes of a header arrive and
      nothing more until the call gives up. */
  ghost predicate CutShort(w: World, n: nat)
  {
    && PromptAt(w.kernel, 1000, 0) && PromptAt(w.kernel, 1000, 1) && n < HEADER_SIZE
    && if n == 0 then SilentFrom(w.kernel, 1000, 2, MAX_RETRIES)
       else w.kernel(2) == BestEffort.Attempt(0, 1, Moved(n)) && SilentFrom(w.kernel, 1000, 3, MAX_RETRIES - 1)
  }

  /** Then the client notes exactly what it read, and stays aligned. */
  lemma FirstCallGivesUp(w: World, payload: string, reply: string, n: nat)
    requires CutShort(w, n) && w.serve(0, Sent(payload)) == Some(reply)
    ensures ClientOk(w, Fresh())
    ensures var (outcome, c) := Call(w, Fresh(), payload);
      && outcome == NoResult && c.open && !c.corrupt && c.health == Health(n, 0, HeaderReadSome)
      && c.token == 1 && c.timeout == 1000
      && c.wire.clock == 2 + MAX_RETRIES && c.wire.consumed == n && ClientOk(w, c) && Inv(w, c)
      && Frames(c.wire.out) == [Sent(payload)] && CleanCall(w, Fresh(), payload)
  {
    hide Run, Replies, Sent, Header, Frames, Rest, WriteRequest, Asked, ContentLength, ReadContent, Frame;
    FreshIsReady(w);
    var c1 := Fresh().(token := 1);
    Runs.TokenIsFree(w, Fresh(), 1);
    RequestSucceeds(w, c1, payload);
    var c2 := WriteRequest(w, c1, payload).1;
    FirstAsked(w, c2, payload, reply);
    SilentRun(w.kernel, HEADER_SIZE, |Inbound(w, c2.wire.out)| - c2.wire.consumed, 1000, MAX_RETRIES, 2, n);
    ReplyAligned(w, c2, [], Sent(payload));
    CleanWhenReady(w, Fresh());
  }

  lemma FirstAsked(w: World, c: Client, payload: string, reply: string)
    requires ClientOk(w, c) && Asked(w, c, [], Sent(payload)) && w.serve(0, Sent(payload)) == Some(reply)
    ensures Frames(c.wire.out) == [Sent(payload)] && c.wire.consumed == 0
    ensures Replies(w, [Sent(payload)]) == Frame(reply) && |Inbound(w, c.wire.out)| == HEADER_SIZE + |Sent(reply)|
  {
    hide Sent, Frames, Rest, Header;
    assert [] + [Sent(payload)] == [Sent(payload)];
    assert Replies(w, []) == "";
    assert [Sent(payload)][..0] == [];
    assert Replies(w, [Sent(payload)]) == "" + Frame(reply);
    FrameLength(reply, 0);
  }

  // ------------------------------------------------------ a split header, reached

  /** A reply of 256 bytes; three bytes of its header arrive in time; the buffer the
      last one is drained into makes a length of it. */
  ghost predicate Splits(w: World, payload: string, reply: string, length: nat)
  {
    && CutShort(w, 3) && w.serve(0, Sent(payload)) == Some(reply) && |Sent(reply)| == 0x100
    && PromptAt(w.kernel, 1000, 12) && PromptAt(w.kernel, 1000, 13)
    && 0 < length < 0x100 && w.stack(12, 1) == '\0' && w.stack(12, 2) == '\0' && w.stack(12, 3) == length as char
  }

  /** Three bytes of the first header in time, all else after the call gave up. */
  function SplitKernel(): Kernel
  {
    t => if t == 2 then BestEffort.Attempt(0, 1, Moved(3))
         else BestEffort.Attempt(0, if 3 <= t < 12 then 0 else 1, Moved(PLENTY))
  }

  function StaleLength(length: nat): (nat, nat) -> char
    requires length < 0x100
  {
    (t, i) => if i == 3 then length as char else '\0'
  }

  /** Such worlds exist, whatever is asked, whatever 256 bytes are the reply, and
      whatever length they are to be taken for. */
  lemma SplitsExist(payload: string, reply: string, length: nat)
    requires |Sent(reply)| == 0x100 && 0 < length < 0x100
    ensures exists w: World :: Splits(w, payload, reply, length)
  {
    hide Sent;
    var w := World((i, p) => Some(reply), SplitKernel(), StaleLength(length));
    assert Splits(w, payload, reply, length);
  }

  /** In every one of them: the first call abandons its reply, cleanly; the check of
      the second drains the last header byte to the front of a stale buffer, goes by
      the length it then finds there, and passes inside the reply. */
  lemma SplitHeaderReached(w: World, payload: string, reply: string, length: nat)
    requires Splits(w, payload, reply, length)
    ensures ClientOk(w, Fresh()) && Inv(w, Fresh()) && CleanCall(w, Fresh(), payload)
    ensures var c1 := Call(w, Fresh(), payload).1;
      && Inv(w, c1)
      && var (healthy, c2) := Check(w, c1);
        && healthy && c2.open && !c2.corrupt && !Inv(w, c2)
        && c2.wire == Wire(c1.wire.out, HEADER_SIZE + length, 14) && c2.health.state.NoRead? && c2.timeout == 1000
        && c2.token == 1 && Frames(c2.wire.out) == [Sent(payload)] && Aligned(c2.wire.out)
  {
    hide Sent, Header, Frames, Rest, Call, ContentLength, StateMachine;
    FreshIsReady(w);
    FirstCallGivesUp(w, payload, reply, 3);
    var c1 := Call(w, Fresh(), payload).1;
    var d := StartDrain(w, c1);
    SplitStep(w, d, payload, reply, length);
    var e := DrainStep(w, d);
    ShortStep(w, e, payload, reply, length);
    var f := DrainStep(w, e);
    assert CheckLoop(w, f, DEATH_COUNTDOWN - 2) == (true, f);
    assert CheckLoop(w, e, DEATH_COUNTDOWN - 1) == (true, f);
    assert CheckLoop(w, d, DEATH_COUNTDOWN) == (true, f);
  }

  lemma SplitStep(w: World, d: Drain, payload: string, reply: string, length: nat)
    requires DrainOk(w, d) && ReadAligned(w, d.wire, d.health) && Splits(w, payload, reply, length)
    requires Frames(d.wire.out) == [Sent(payload)] && d.wire.consumed == 3 && d.wire.clock == 12 && !d.overrun
    requires d.health == Health(3, 0, HeaderReadSome) && d.buf == Garbage(w, 12, DRAIN_BUFFER)
    ensures var e := DrainStep(w, d);
      && e.health == Health(0, length, ContentReadSome) && e.wire == Wire(d.wire.out, HEADER_SIZE, 13) && !e.overrun
  {
  }

  lemma ShortStep(w: World, e: Drain, payload: string, reply: string, length: nat)
    requires DrainOk(w, e) && Splits(w, payload, reply, length) && Frames(e.wire.out) == [Sent(payload)]
    requires e.health == Health(0, length, ContentReadSome) && e.wire.consumed == HEADER_SIZE && e.wire.clock == 13 && !e.overrun
    ensures var f := DrainStep(w, e);
      && f.health.state.NoRead? && !ReadAligned(w, f.wire, f.health) && !f.overrun
      && f.wire == Wire(e.wire.out, HEADER_SIZE + length, 14)
  {
  }

  // ---------------------------------------------------- an overrunning drain, reached

  /** The reply is longer than the drain's buffer; its header arrives in time, its
      content only after the call gave up. */
  ghost predicate Overruns(w: World, payload: string, reply: string)
  {
    && PromptAt(w.kernel, 1000, 0) && PromptAt(w.kernel, 1000, 1) && PromptAt(w.kernel, 1000, 2)
    && SilentFrom(w.kernel, 1000, 3, MAX_RETRIES) && PromptAt(w.kernel, 1000, 13)
    && w.serve(0, Sent(payload)) == Some(reply) && 4096 < |Sent(reply)| <= 16380
  }

  lemma OverrunsExist(payload: string, reply: string)
    requires 4096 < |Sent(reply)| <= 16380
    ensures exists w: World :: Overruns(w, payload, reply)
  {
    hide Sent;
    var k: Kernel := t => BestEffort.Attempt(0, if 3 <= t < 13 then 0 else 1, Moved(PLENTY));
    var w := World((i, p) => Some(reply), k, (t, i) => 'x');
    assert Overruns(w, payload, reply);
  }

  lemma ContentGivesUp(w: World, c: Client, payload: string, reply: string)
    requires ClientOk(w, c) && Asked(w, c, [], Sent(payload)) && Overruns(w, payload, reply)
    requires c.health.state.NoRead? && !c.corrupt && c.timeout == 1000 && c.wire.clock == 2
    ensures var (outcome, c') := ReadResponse(w, c);
      && outcome == NoResult && c' == c.(health := Health(0, |Sent(reply)|, ContentReadSome), wire := c'.wire)
      && c'.wire == Wire(c.wire.out, HEADER_SIZE, 13) && Inv(w, c') && CleanRead(w, c)
      && |Inbound(w, c'.wire.out)| == HEADER_SIZE + |Sent(reply)|
  {
    hide Run, Replies, Sent, Header, Rest, ContentLength, Frame;
    FirstAsked(w, c, payload, reply);
    var have := |Inbound(w, c.wire.out)|;
    PromptRun(w.kernel, HEADER_SIZE, have, 1000, MAX_RETRIES, 2);
    ReplyHeaderRead(w, c, [], Sent(payload));
    SilentRun(w.kernel, |Sent(reply)|, have - HEADER_SIZE, 1000, MAX_RETRIES, 3, 0);
    ReplyAligned(w, c, [], Sent(payload));
    hide Frames;
  }

  /** In every such world: a fresh client abandons the content, cleanly and aligned;
      the check of its next call runs past its buffer. */
  lemma OverrunReached(w: World, payload: string, reply: string)
    requires Overruns(w, payload, reply)
    ensures ClientOk(w, Fresh()) && Inv(w, Fresh()) && CleanCall(w, Fresh(), payload)
    ensures var (outcome, c) := Call(w, Fresh(), payload);
      outcome == NoResult && c.open && Inv(w, c) && !c.corrupt && Check(w, c).1.corrupt
  {
    hide Run, Replies, Sent, Header, Frames, Rest, WriteRequest, ReadResponse, Asked, Inbound, CleanRead, CleanWrite;
    FreshIsReady(w);
    var c1 := Fresh().(token := 1);
    Runs.TokenIsFree(w, Fresh(), 1);
    RequestSucceeds(w, c1, payload);
    var c2 := WriteRequest(w, c1, payload).1;
    ContentGivesUp(w, c2, payload, reply);
    CleanWhenReady(w, Fresh());
    var c := ReadResponse(w, c2).1;
    var d := StartDrain(w, c);
    WholeContentDrained(w, d, reply);
    OverrunStays(w, DrainStep(w, d), DEATH_COUNTDOWN - 1);
  }

  lemma WholeContentDrained(w: World, d: Drain, reply: string)
    requires DrainOk(w, d) && d.health == Health(0, |Sent(reply)|, ContentReadSome) && |Sent(reply)| > DRAIN_BUFFER
    requires |Inbound(w, d.wire.out)| - d.wire.consumed >= |Sent(reply)| && PromptAt(w.kernel, 1000, d.wire.clock)
    ensures DrainStep(w, d).overrun
  {
    hide Inbound;
  }

  // ------------------------------------------- why replies must not hold a NUL

  /** Where the client is led, the reply holds what reads as a header that announces
      five bytes. */
  ghost predicate Deceives(w: World, payload: string, second: string, reply: string, at: nat)
  {
    && Splits(w, payload, reply, at) && at + 9 <= 0x100 && Sent(reply)[at..at + HEADER_SIZE] == Header(5)
    && PromptAt(w.kernel, 1000, 14) && PromptAt(w.kernel, 1000, 15)
    && PromptAt(w.kernel, 1000, 16) && PromptAt(w.kernel, 1000, 17)
  }

  /** The second request goes out behind the first. */
  lemma SecondWritten(w: World, c: Client, payload: string, second: string, reply: string, at: nat)
    requires ClientOk(w, c) && Deceives(w, payload, second, reply, at) && c.open && c.timeout == 1000
    requires c.wire.consumed == HEADER_SIZE + at && c.wire.clock == 14
    requires Frames(c.wire.out) == [Sent(payload)] && Aligned(c.wire.out)
    ensures var (written, c') := WriteRequest(w, c, second);
      && written && c' == c.(wire := c'.wire) && c'.wire.consumed == c.wire.consumed && c'.wire.clock == 16
      && var all := Inbound(w, c'.wire.out);
        && at + 13 <= |all| && all[at + 4..at + 8] == Header(5) && all[at + 8..at + 13] == Sent(reply)[at + 4..at + 9]
  {
    hide Run, Header, Sent, Rest;
    PromptRun(w.kernel, HEADER_SIZE, HEADER_SIZE, 1000, MAX_RETRIES, 14);
    PromptRun(w.kernel, |Sent(second)|, |Sent(second)|, 1000, MAX_RETRIES, 15);
    WriteAlignmentExactly(w, c, second);
    TwoReplies(w, payload, second, reply, at);
    hide Frames, Replies;
  }

  lemma TwoReplies(w: World, payload: string, second: string, reply: string, at: nat)
    requires w.serve(0, Sent(payload)) == Some(reply) && |Sent(reply)| == 0x100 && at + 9 <= 0x100
    requires Sent(reply)[at..at + HEADER_SIZE] == Header(5)
    ensures var all := Replies(w, [Sent(payload)] + [Sent(second)]);
      at + 13 <= |all| && all[at + 4..at + 8] == Header(5) && all[at + 8..at + 13] == Sent(reply)[at + 4..at + 9]
  {
    hide Sent, Header;
    var requests := [Sent(payload)] + [Sent(second)];
    assert requests[..1] == [Sent(payload)] && [Sent(payload)][..0] == [];
    assert Replies(w, [Sent(payload)]) == "" + Frame(reply);
    var all := Replies(w, requests);
    assert all == Frame(reply) + ReplyBytes(w.serve(1, Sent(second)));
    FrameLength(reply, 0);
    assert forall i | 4 <= i < 260 :: all[i] == Sent(reply)[i - 4];
    assert all[at + 4..at + 8] == Sent(reply)[at..at + 4];
  }

  /** Then the second call hands out five bytes of the first reply. */
  lemma WrongBytesReached(w: World, payload: string, second: string, reply: string, at: nat)
    requires Deceives(w, payload, second, reply, at)
    ensures ClientOk(w, Fresh()) && LooseInv(w, Fresh())
    ensures var c1 := Call(w, Fresh(), payload).1; var (outcome, _) := Call(w, c1, second);
      && c1.token == 1 && SafeTransfers(w, Fresh()) && SafeTransfers(w, c1)
      && outcome.Response? && Sent(reply)[at + 4..at + 9] <= outcome.memory
  {
    hide Sent, Header, Frames, Rest, Call, ContentLength, WriteRequest, ReadResponse, Inbound, Check, Run, CleanWrite;
    FreshIsReady(w);
    RequestSucceeds(w, Fresh(), payload);
    ReadyIsSafe(w, Fresh());
    SplitHeaderReached(w, payload, reply, at);
    var c1 := Call(w, Fresh(), payload).1;
    FirstCallGivesUp(w, payload, reply, 3);
    var c2 := Check(w, c1).1;
    var c3 := c2.(token := c2.token + 1);
    SecondWritten(w, c3, payload, second, reply, at);
    Runs.WrittenIsClean(w, c3, second);
    var c4 := WriteRequest(w, c3, second).1;
    FakeReply(w, c4, at, Sent(reply)[at + 4..at + 9]);
    CallIs(w, c1, second);
  }

  lemma CallIs(w: World, c: Client, payload: string)
    requires ClientOk(w, c) && Check(w, c).0
    ensures var c' := Check(w, c).1; Call(w, c, payload) == Exchange(w, c'.(token := c'.token + 1), payload)
  {
    hide Check, Exchange;
  }

  /** Five bytes behind what reads as their header are handed out. */
  lemma FakeReply(w: World, c: Client, at: nat, five: string)
    requires ClientOk(w, c) && c.timeout == 1000 && c.wire.consumed == HEADER_SIZE + at && c.wire.clock == 16 && |five| == 5
    requires PromptAt(w.kernel, 1000, 16) && PromptAt(w.kernel, 1000, 17)
    requires var all := Inbound(w, c.wire.out);
      at + 13 <= |all| && all[at + 4..at + 8] == Header(5) && all[at + 8..at + 13] == five
    ensures var (outcome, _) := ReadResponse(w, c); outcome.Response? && five <= outcome.memory
  {
    hide Run, Header, Inbound, ContentLength;
    var all := Inbound(w, c.wire.out);
    PromptRun(w.kernel, HEADER_SIZE, |all| - (at + 4), 1000, MAX_RETRIES, 16);
    HeaderRoundTrip(5, "");
    assert Header(5) + "" == Header(5);
    PromptRun(w.kernel, 5, |all| - (at + 8), 1000, MAX_RETRIES, 17);
  }
}
