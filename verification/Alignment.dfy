/** Stream alignment of the client, over every kernel, server and stack, and over
    every run of calls. */
module Alignment {
  import opened Json
  import opened Framing
  import opened BestEffort
  import opened Connection

  // ------------------------------------------------------------- the invariant

  /** Bytes of every reply but the last request's. */
  function Before(w: World, requests: seq<string>): nat
    requires requests != []
  {
    |Replies(w, requests[..|requests| - 1])|
  }

  /** The one request not answered yet, or not fully. */
  function Outstanding(w: World, requests: seq<string>): Option<string>
    requires requests != []
  {
    w.serve(|requests| - 1, requests[|requests| - 1])
  }

  lemma LastReply(w: World, requests: seq<string>)
    requires requests != []
    ensures |Replies(w, requests)| == Before(w, requests) + |ReplyBytes(Outstanding(w, requests))|
    ensures Replies(w, requests)[Before(w, requests)..] == ReplyBytes(Outstanding(w, requests))
  {
  }

  /** Where the client stands in the inbound stream, by health state. */
  ghost predicate ReadAligned(w: World, wire: Wire, h: Health)
  {
    var requests := Frames(wire.out);
    match h.state
    case Undefined => true
    case NoRead => wire.consumed == |Replies(w, requests)|
    case HeaderReadSome => requests != [] && wire.consumed == Before(w, requests) + h.some
    case ContentReadSome =>
      && requests != [] && Outstanding(w, requests).Some?
      && h.content == |Sent(Outstanding(w, requests).value)|
      && wire.consumed == Before(w, requests) + HEADER_SIZE + h.some
  }

  /** At every call boundary: on an open, uncorrupted socket the client has
      written whole frames and knows where it stands in the replies. */
  ghost predicate Inv(w: World, c: Client)
  {
    && ClientOk(w, c)
    && (c.open ==> Aligned(c.wire.out))
    && (c.open && !c.corrupt ==> ReadAligned(w, c.wire, c.health))
  }

  // --------------------------------------------------- what can go wrong, where

  /** The length the drain reads off its buffer, when the last piece of a header
      whose first `some` bytes went elsewhere was stored at its start. */
  function DrainedLength(header: string, some: nat, stale: string): nat
    requires |header| == HEADER_SIZE && some <= HEADER_SIZE <= |stale|
  {
    ContentLength(Stored(stale, 0, header[some..]))
  }

  /** If this step completes a header, the length it goes by is the reply's own, or
      too large to be believed. */
  ghost predicate SoundHeader(w: World, d: Drain)
    requires DrainOk(w, d)
  {
    var requests, left := Frames(d.wire.out), HEADER_SIZE - d.health.some;
    d.health.state.HeaderReadSome? && DrainIo(w, d, left) == Moved(left)
    && requests != [] && Outstanding(w, requests).Some? ==>
      var content := Sent(Outstanding(w, requests).value);
      var length := DrainedLength(Header(|content|), d.health.some, d.buf);
      length == |content| || length > DRAIN_BUFFER
  }

  ghost predicate SoundHeaders(w: World, d: Drain, countdown: nat)
    requires DrainOk(w, d)
    decreases countdown
  {
    countdown == 0 || d.health.state.NoRead? || (SoundHeader(w, d) && SoundHeaders(w, DrainStep(w, d), countdown - 1))
  }

  /** A check that goes by sound headers, or ends the connection, and overruns no
      buffer. */
  ghost predicate CleanCheck(w: World, c: Client)
    requires ClientOk(w, c)
  {
    c.open ==>
      && (SoundHeaders(w, StartDrain(w, c), DEATH_COUNTDOWN) || Check(w, c).1.health.state.Undefined?)
      && !Check(w, c).1.corrupt
  }

  ghost predicate CleanWrite(w: World, c: Client)
    requires ClientOk(w, c)
  {
    !HidesProgress(Write(w, c.wire, HEADER_SIZE, c.timeout))
  }

  /** Neither the header read nor the content read, if there is one, hides its
      progress. */
  ghost predicate CleanRead(w: World, c: Client)
    requires ClientOk(w, c)
  {
    var t := Read(w, c.wire, HEADER_SIZE, c.timeout);
    var c1 := c.(wire := AfterRead(w, c.wire, t));
    && !HidesProgress(t)
    && (t.ret == HEADER_SIZE && HEADER_SIZE + ContentLength(Got(w, c.wire, t)) <= CALL_BUFFER ==>
          !HidesProgress(Read(w, c1.wire, ContentLength(Got(w, c.wire, t)), c.timeout)))
  }

  ghost predicate CleanExchange(w: World, c: Client, payload: string)
    requires ClientOk(w, c)
  {
    var (written, c') := WriteRequest(w, c, payload);
    CleanWrite(w, c) && (written ==> CleanRead(w, c'))
  }

  /** A call whose check is clean and whose transfers hide no progress. */
  ghost predicate CleanCall(w: World, c: Client, payload: string)
    requires ClientOk(w, c)
  {
    var (healthy, c') := Check(w, c);
    CleanCheck(w, c) && (healthy ==> CleanExchange(w, c'.(token := c'.token + 1), payload))
  }

  // ------------------------------------------------------------------ draining

  /** That is the length a drain goes by, when it completes a header of which
      `some` bytes were read before. */
  lemma SplitDrain(w: World, d: Drain)
    requires DrainOk(w, d) && ReadAligned(w, d.wire, d.health) && d.health.state.HeaderReadSome?
    requires DrainIo(w, d, HEADER_SIZE - d.health.some) == Moved(HEADER_SIZE - d.health.some)
    ensures var reply := Outstanding(w, Frames(d.wire.out));
      && reply.Some?
      && DrainStep(w, d).health.content == DrainedLength(Header(|Sent(reply.value)|), d.health.some, d.buf)
  {
    hide Replies, ContentLength, Frames, Sent, Header;
    var requests, some := Frames(d.wire.out), d.health.some;
    LastReply(w, requests);
    var reply := Outstanding(w, requests);
    assert reply.Some?;
    var all, from := Replies(w, requests), Before(w, requests);
    var header := Header(|Sent(reply.value)|);
    assert all[from..] == header + Sent(reply.value);
    TailOfHeader(all, from, some, header, Sent(reply.value));
  }

  lemma TailOfHeader(all: string, from: nat, some: nat, header: string, content: string)
    requires from <= |all| && all[from..] == header + content && some <= |header|
    ensures from + |header| <= |all| && all[from + some..from + |header|] == header[some..]
  {
    var part, rest := all[from + some..from + |header|], all[from..];
    assert |rest| == |header| + |content|;
    forall i | 0 <= i < |header| - some ensures part[i] == header[some..][i] {
      assert part[i] == rest[some + i];
    }
  }

  /** A drain step keeps the client where it believes to stand if and only if a
      header it completes is sound. */
  lemma DrainStepAligned(w: World, d: Drain)
    requires DrainOk(w, d) && ReadAligned(w, d.wire, d.health)
    ensures ReadAligned(w, DrainStep(w, d).wire, DrainStep(w, d).health) <==> SoundHeader(w, d)
  {
    hide Replies, ContentLength, Frames, Sent, Aligned, Inbound, Header, DrainedLength;
    var requests, left := Frames(d.wire.out), HEADER_SIZE - d.health.some;
    if requests != [] { LastReply(w, requests); }
    if d.health.state.HeaderReadSome? && DrainIo(w, d, left) == Moved(left) { SplitDrain(w, d); }
  }

  /** A header of which nothing was read before is sound, whole or in part. */
  lemma WholeHeaderIsSound(w: World, d: Drain)
    requires DrainOk(w, d) && d.health.some == 0
    ensures SoundHeader(w, d)
  {
    hide Replies, ContentLength, Frames, Header, Inbound;
    var requests := Frames(d.wire.out);
    if requests != [] && Outstanding(w, requests).Some? {
      var header := Header(|Sent(Outstanding(w, requests).value)|);
      var buf := Stored(d.buf, 0, header[0..]);
      HeaderRoundTrip(|Sent(Outstanding(w, requests).value)|, "");
      assert header + "" == header && buf[..HEADER_SIZE] == header[..HEADER_SIZE];
      SameHeader(buf, header);
    }
  }

  /** Past an unsound header: draining as many bytes as the reply does not have. */
  ghost predicate Misled(w: World, wire: Wire, h: Health)
  {
    var requests := Frames(wire.out);
    && h.state.ContentReadSome? && requests != [] && Outstanding(w, requests).Some?
    && h.content != |Sent(Outstanding(w, requests).value)|
    && wire.consumed == Before(w, requests) + HEADER_SIZE + h.some
  }

  lemma MisledByStep(w: World, d: Drain)
    requires DrainOk(w, d) && ReadAligned(w, d.wire, d.health) && !SoundHeader(w, d)
    ensures Misled(w, DrainStep(w, d).wire, DrainStep(w, d).health)
  {
    hide Replies, ContentLength, Frames, Sent, Aligned, Inbound, Header, DrainedLength;
    LastReply(w, Frames(d.wire.out));
    SplitDrain(w, d);
  }

  /** There is no way back: a misled drain ends the connection, or passes in the
      wrong place, or is still misled. */
  lemma {:induction false} MisledForGood(w: World, d: Drain, countdown: nat)
    requires DrainOk(w, d) && Misled(w, d.wire, d.health)
    ensures var e := CheckLoop(w, d, countdown).1;
      e.health.state.Undefined? || !ReadAligned(w, e.wire, e.health)
    decreases countdown
  {
    hide Replies, ContentLength, Frames, Sent, Aligned, Inbound, Header;
    var requests := Frames(d.wire.out);
    LastReply(w, requests);
    FrameLength(Outstanding(w, requests).value, 0);
    if countdown > 0 {
      var e := DrainStep(w, d);
      if e.health.state.ContentReadSome? {
        MisledForGood(w, e, countdown - 1);
      } else if e.health.state.Undefined? {
        UndefinedLoop(w, e, countdown - 1);
      } else {
        assert CheckLoop(w, e, countdown - 1).1 == e;
      }
    }
  }

  lemma {:induction false} UndefinedLoop(w: World, d: Drain, countdown: nat)
    requires DrainOk(w, d) && d.health.state.Undefined?
    ensures CheckLoop(w, d, countdown) == (false, d)
    decreases countdown
  {
    if countdown > 0 { UndefinedLoop(w, d, countdown - 1); }
  }

  /** Any number of rounds: aligned at the end if and only if every header completed
      was sound, or the connection was ended. */
  lemma {:induction false} CheckLoopAligned(w: World, d: Drain, countdown: nat)
    requires DrainOk(w, d) && ReadAligned(w, d.wire, d.health)
    ensures var e := CheckLoop(w, d, countdown).1;
      ReadAligned(w, e.wire, e.health) <==> SoundHeaders(w, d, countdown) || e.health.state.Undefined?
    decreases countdown
  {
    hide DrainStep, SoundHeader, Misled;
    if countdown > 0 && !d.health.state.NoRead? {
      DrainStepAligned(w, d);
      if SoundHeader(w, d) {
        CheckLoopAligned(w, DrainStep(w, d), countdown - 1);
      } else {
        MisledByStep(w, d);
        MisledForGood(w, DrainStep(w, d), countdown - 1);
      }
    }
  }

  /** A check keeps the invariant if and only if it is clean, as long as no drain
      runs past its buffer. */
  lemma CheckAlignedExactly(w: World, c: Client)
    requires Inv(w, c) && c.open && !Check(w, c).1.corrupt
    ensures Inv(w, Check(w, c).1) <==> CleanCheck(w, c)
  {
    hide CheckLoop, Aligned, SoundHeaders, Frames;
    if !c.health.state.NoRead? { CheckLoopAligned(w, StartDrain(w, c), DEATH_COUNTDOWN); } else {
      NothingToDrain(w, StartDrain(w, c), DEATH_COUNTDOWN);
    }
  }

  lemma NothingToDrain(w: World, d: Drain, countdown: nat)
    requires DrainOk(w, d) && d.health.state.NoRead?
    ensures SoundHeaders(w, d, countdown)
  {
  }

  lemma CheckAligned(w: World, c: Client)
    requires Inv(w, c) && CleanCheck(w, c)
    ensures Inv(w, Check(w, c).1)
    ensures Check(w, c).0 ==> !Check(w, c).1.corrupt
  {
    hide CheckLoop, SoundHeaders, Inv;
    if c.open { CheckAlignedExactly(w, c); }
  }

  // ------------------------------------------------------------------- writing

  /** How many bytes of the frame a request moves. */
  function Written(w: World, c: Client, payload: string): (k: nat)
    requires ClientOk(w, c)
    ensures k <= |Frame(payload)|
  {
    var t := Write(w, c.wire, HEADER_SIZE, c.timeout);
    if t.ret != HEADER_SIZE then t.moved
    else
      var c1 := c.(wire := AfterWrite(w, c.wire, Header(|Sent(payload)|), t));
      HEADER_SIZE + Write(w, c1.wire, |Sent(payload)|, c.timeout).moved
  }

  lemma ContentOnWire(w: World, c: Client, out: string, payload: string)
    requires ClientOk(w, c) && c.wire.out == out + Header(|Sent(payload)|)
    ensures var k := Write(w, c.wire, |Sent(payload)|, c.timeout).moved;
      && HEADER_SIZE + k <= |Frame(payload)|
      && WriteContent(w, c, Sent(payload)).1.wire.out == out + Frame(payload)[..HEADER_SIZE + k]
  {
    hide Run, Header, Sent, Inbound, ClientOk;
    var k := Write(w, c.wire, |Sent(payload)|, c.timeout).moved;
    var header, content := Header(|Sent(payload)|), Sent(payload)[..k];
    assert Frame(payload)[..HEADER_SIZE + k] == header + content;
    assert (out + header) + content == out + (header + content);
  }

  lemma RequestOnWire(w: World, c: Client, payload: string)
    requires ClientOk(w, c)
    ensures WriteRequest(w, c, payload).1.wire.out == c.wire.out + Frame(payload)[..Written(w, c, payload)]
  {
    hide Run, Header, Sent, Inbound, WriteContent;
    var header := Header(|Sent(payload)|);
    var t := Write(w, c.wire, HEADER_SIZE, c.timeout);
    if t.ret == HEADER_SIZE {
      assert header[..HEADER_SIZE] == header;
      ContentOnWire(w, c.(wire := AfterWrite(w, c.wire, header, t)), c.wire.out, payload);
    } else {
      assert Frame(payload)[..t.moved] == header[..t.moved];
    }
  }

  /** A successful request moves the whole frame; one that fails on a socket left
      open moves less than a header, and nothing unless it hides its progress. */
  lemma RequestAmount(w: World, c: Client, payload: string)
    requires ClientOk(w, c) && c.open
    ensures var (written, c') := WriteRequest(w, c, payload); var k := Written(w, c, payload);
      && (written ==> k == |Frame(payload)|)
      && (!written && c'.open ==> k < HEADER_SIZE && (k == 0 <==> CleanWrite(w, c)))
  {
    hide Run, Header, Sent, Inbound;
    FrameLength(payload, 0);
    RunAllOrLess(w.kernel, HEADER_SIZE, HEADER_SIZE, c.timeout, MAX_RETRIES, c.wire.clock);
  }

  /** The client closes a socket over a failed request if and only if part of it is out
      and the client knows. */
  lemma RequestClosesExactly(w: World, c: Client, payload: string)
    requires ClientOk(w, c) && c.open
    ensures var (written, c') := WriteRequest(w, c, payload);
      !c'.open <==> !written && Written(w, c, payload) > 0 && CleanWrite(w, c)
  {
    hide Run, Header, Sent, Inbound;
  }

  /** Write side, exactly: from whole frames, a request that fails and leaves the
      socket open leaves whole frames behind if and only if the header write did
      not hide its progress; and then it moved no byte. */
  lemma WriteAlignmentExactly(w: World, c: Client, payload: string)
    requires ClientOk(w, c) && c.open && Aligned(c.wire.out)
    ensures var (written, c') := WriteRequest(w, c, payload);
      && (written ==> c'.wire.out == c.wire.out + Frame(payload) && Aligned(c'.wire.out)
                      && Frames(c'.wire.out) == Frames(c.wire.out) + [Sent(payload)])
      && (!written && c'.open ==> (Aligned(c'.wire.out) <==> CleanWrite(w, c)))
      && (!written && c'.open && CleanWrite(w, c) ==> c'.wire.out == c.wire.out)
  {
    hide WriteRequest, Written, Frame, Frames, Sent, CleanWrite, Rest;
    var f, k := Frame(payload), Written(w, c, payload);
    RequestOnWire(w, c, payload);
    RequestAmount(w, c, payload);
    FrameLength(payload, 0);
    if k == |f| {
      assert f[..k] == f;
      FrameAppended(c.wire.out, payload);
    } else {
      PartAppended(c.wire.out, payload, k);
      if k == 0 { assert c.wire.out + f[..0] == c.wire.out; }
    }
  }

  /** A request is outstanding and nothing of its reply was read. */
  ghost predicate Asked(w: World, c: Client, before: seq<string>, request: string)
  {
    && c.open && Aligned(c.wire.out) && Frames(c.wire.out) == before + [request]
    && (before + [request])[..|before|] == before
    && c.wire.consumed == |Replies(w, before)|
  }

  lemma RequestAligned(w: World, c: Client, payload: string)
    requires Inv(w, c) && c.open && c.health.state.NoRead? && CleanWrite(w, c)
    ensures var (written, c') := WriteRequest(w, c, payload);
      && ClientOk(w, c')
      && (!written ==> Inv(w, c'))
      && (written && !c.corrupt ==> Asked(w, c', Frames(c.wire.out), Sent(payload)))
  {
    hide WriteRequest, Replies, Frame, Sent, Rest, CleanWrite;
    WriteAlignmentExactly(w, c, payload);
    var requests := Frames(c.wire.out);
    assert (requests + [Sent(payload)])[..|requests|] == requests;
  }

  // ------------------------------------------------------------------- reading

  /** The memory decoded starts with the reply to the n-th request, this one. */
  ghost predicate Answered(w: World, n: nat, request: string, outcome: Outcome)
    requires outcome.Response?
  {
    w.serve(n, request).Some? && Sent(w.serve(n, request).value) <= outcome.memory
  }

  lemma ReplyHeaderRead(w: World, c: Client, before: seq<string>, request: string)
    requires ClientOk(w, c) && Asked(w, c, before, request)
    requires Read(w, c.wire, HEADER_SIZE, c.timeout).ret == HEADER_SIZE
    ensures w.serve(|before|, request).Some?
    ensures ContentLength(Got(w, c.wire, Read(w, c.wire, HEADER_SIZE, c.timeout)))
         == |Sent(w.serve(|before|, request).value)|
  {
    hide Run, ContentLength, Frames, Rest, Sent;
    var requests, n := before + [request], c.wire.consumed;
    LastReply(w, requests);
    var all, reply := Replies(w, requests), w.serve(|before|, request);
    assert reply.Some?;
    var f := Frame(reply.value);
    FrameLength(reply.value, HEADER_SIZE);
    assert f == all[n..];
    assert all[n..n + HEADER_SIZE] == all[n..][..HEADER_SIZE];
    SameHeader(f[..HEADER_SIZE], all[n..n + HEADER_SIZE]);
  }

  /** The bytes behind the header are the reply's own. */
  lemma ReplyContentRead(w: World, before: seq<string>, request: string)
    requires w.serve(|before|, request).Some? && (before + [request])[..|before|] == before
    ensures var content := Sent(w.serve(|before|, request).value);
      var n := |Replies(w, before)| + HEADER_SIZE;
      && |Replies(w, before + [request])| == n + |content|
      && Replies(w, before + [request])[n..n + |content|] == content
  {
    hide Replies, Sent;
    LastReply(w, before + [request]);
    var all, f := Replies(w, before + [request]), Frame(w.serve(|before|, request).value);
    FrameLength(w.serve(|before|, request).value, 0);
    assert f == all[|Replies(w, before)|..];
    assert all[|Replies(w, before)| + HEADER_SIZE..] == f[HEADER_SIZE..];
  }

  /** After the header, what is noted about the content is right if and only if its
      read did not hide its progress; and what is handed out is the reply. */
  lemma ContentAligned(w: World, c: Client, before: seq<string>, request: string, length: nat, buf: string)
    requires ClientOk(w, c) && c.open && !c.corrupt && c.health.state.NoRead?
    requires Aligned(c.wire.out) && Frames(c.wire.out) == before + [request]
    requires (before + [request])[..|before|] == before
    requires w.serve(|before|, request).Some? && length == |Sent(w.serve(|before|, request).value)|
    requires c.wire.consumed == |Replies(w, before)| + HEADER_SIZE && HEADER_SIZE + length <= |buf|
    ensures var (outcome, c') := ReadContent(w, c, length, buf);
      && (Inv(w, c') <==> !HidesProgress(Read(w, c.wire, length, c.timeout)))
      && (outcome.Response? ==> Answered(w, |before|, request, outcome))
  {
    hide Run, Replies, Frame, Sent, Rest;
    ReplyContentRead(w, before, request);
  }

  /** It closes one over a reply if and only if its header was read whole and announces
      more than the buffer takes. */
  lemma ReplyClosesExactly(w: World, c: Client, before: seq<string>, request: string)
    requires ClientOk(w, c) && Asked(w, c, before, request) && c.open
    ensures var reply := w.serve(|before|, request);
      !ReadResponse(w, c).1.open <==>
        Read(w, c.wire, HEADER_SIZE, c.timeout).ret == HEADER_SIZE && reply.Some?
        && |Sent(reply.value)| > 16380
  {
    hide Run, ContentLength, Sent, Inbound, Frames, Rest, Replies;
    if Read(w, c.wire, HEADER_SIZE, c.timeout).ret == HEADER_SIZE { ReplyHeaderRead(w, c, before, request); }
  }

  /** Read side, exactly: reading a reply keeps the invariant if and only if neither
      read hides its progress; and nothing but that reply is handed out. */
  lemma ReplyAligned(w: World, c: Client, before: seq<string>, request: string)
    requires ClientOk(w, c) && Asked(w, c, before, request) && c.health.state.NoRead? && !c.corrupt
    ensures var (outcome, c') := ReadResponse(w, c);
      && (Inv(w, c') <==> CleanRead(w, c))
      && (outcome.Response? ==> Answered(w, |before|, request, outcome))
  {
    hide Run, Replies, ContentLength, Frame, Sent, Rest, ReadContent;
    var t := Read(w, c.wire, HEADER_SIZE, c.timeout);
    RunAllOrLess(w.kernel, HEADER_SIZE, |Inbound(w, c.wire.out)| - c.wire.consumed, c.timeout, MAX_RETRIES, c.wire.clock);
    if t.ret == HEADER_SIZE {
      ReplyHeaderRead(w, c, before, request);
      var c' := c.(wire := AfterRead(w, c.wire, t));
      var length := ContentLength(Got(w, c.wire, t));
      if HEADER_SIZE + length <= CALL_BUFFER {
        ContentAligned(w, c', before, request, length, Stored(Garbage(w, c.wire.clock, CALL_BUFFER), 0, Got(w, c.wire, t)));
      }
    }
  }
}
