/** Matching without alignment. Split headers and hidden reads can cost a client its
    place in the replies, but not make it hand out a wrong one, as long as replies
    are texts: what it then reads as a length is text, too large for any buffer, so
    it closes or gives the connection up. Objects as `dump` prints them are such
    texts when no string in them holds a NUL. */
module Matching {
  import opened Framing
  import opened BestEffort
  import opened Connection
  import opened Alignment
  import opened NulFreeText
  import opened Runs

  /** No zero byte, and a first byte like `{` that makes a length of 0x4000 or more
      wherever in the upper three bytes it is read. */
  predicate TextReply(content: string)
  {
    content != [] && Byte(content[0]) >= 0x40 && NulFree(content)
  }

  function FrameOf(content: string): string { Header(|content|) + content }

  /** At most two bytes of anything, then text. */
  ghost predicate Junk(t: string, z: nat)
  {
    && z <= 2 && z < |t| && (z > 0 ==> Byte(t[z]) >= 0x40)
    && forall i | z <= i < |t| :: Byte(t[i]) != 0
  }

  /** What may lie in front of the next reply: nothing, or the end of an earlier one,
      from the third byte of its header on at the earliest. */
  ghost predicate Tail(t: string) { t == "" || exists z: nat :: Junk(t, z) }

  lemma SuffixIsTail(content: string, i: nat)
    requires TextReply(content) && 2 <= i <= HEADER_SIZE + |content|
    ensures Tail(FrameOf(content)[i..])
  {
    hide Header;
    var f := FrameOf(content);
    var t := f[i..];
    if t != "" {
      var z: nat := if i < HEADER_SIZE then HEADER_SIZE - i else 0;
      forall j | z <= j < |t| ensures t[j] == content[i + j - HEADER_SIZE] { assert t[j] == f[i + j]; }
      assert Junk(t, z);
    }
  }

  /** Nothing is read as a length small enough when a tail lies in front. */
  lemma TailIsNoLength(t: string, f: string)
    requires Tail(t) && t != "" && HEADER_SIZE <= |t + f|
    ensures HEADER_SIZE + ContentLength(t + f) > CALL_BUFFER
  {
    var z: nat :| Junk(t, z);
    assert (t + f)[z] == t[z];
  }

  // ------------------------------------------------------------- the invariant

  /** Part of a header was taken, or nothing: `some` bytes or more since `p`, from a
      tail up to `n` and at most one text reply behind it. */
  ghost predicate HeaderSince(all: string, consumed: nat, some: int, p: nat, n: nat)
  {
    && p + some <= consumed && p <= n <= |all| && Tail(all[p..n])
    && (all[n..] == "" || exists content :: TextReply(content) && all[n..] == FrameOf(content))
  }

  /** Inside the last reply, which is a text and starts at `n`. */
  ghost predicate Inside(all: string, consumed: nat, n: nat, content: string)
  {
    n < consumed && n <= |all| && TextReply(content) && all[n..] == FrameOf(content)
  }

  ghost predicate Loose(all: string, consumed: nat, h: Health)
    requires consumed <= |all|
  {
    match h.state
    case Undefined => true
    case NoRead => Tail(all[consumed..])
    case HeaderReadSome => exists p: nat, n: nat :: HeaderSince(all, consumed, h.some, p, n)
    case ContentReadSome => exists n: nat, content: string :: Inside(all, consumed, n, content)
  }

  /** At every call boundary on an open, uncorrupted socket. */
  ghost predicate LooseInv(w: World, c: Client)
  {
    && ClientOk(w, c)
    && (c.open ==> Aligned(c.wire.out))
    && (c.open && !c.corrupt ==> Loose(Inbound(w, c.wire.out), c.wire.consumed, c.health))
  }

  // ------------------------------------------------------------------ draining

  /** The bytes a drain step put at the front of its buffer. */
  lemma Piece(w: World, d: Drain, m: nat)
    requires DrainOk(w, d) && d.health.state.HeaderReadSome?
    requires DrainIo(w, d, HEADER_SIZE - d.health.some) == Moved(m)
    ensures 0 < m <= HEADER_SIZE - d.health.some && d.wire.consumed + m <= |Inbound(w, d.wire.out)|
    ensures var e := StateMachine(w, d, HEADER_SIZE - d.health.some, ContentReadSome);
      forall i | 0 <= i < m :: e.buf[i] == Inbound(w, d.wire.out)[d.wire.consumed + i]
  {
    hide Inbound;
    var all := Inbound(w, d.wire.out);
    assert all[d.wire.consumed..d.wire.consumed + m] == all[d.wire.consumed..][..m];
  }

  /** A header completed from a piece that starts in a tail gives no small length. */
  lemma PieceInTail(t: string, j: nat, m: nat, buf: string)
    requires Tail(t) && HEADER_SIZE <= |buf| && HEADER_SIZE - m <= j < |t| && m <= HEADER_SIZE
    requires forall i | 0 <= i < m && j + i < |t| :: buf[i] == t[j + i]
    requires m > 0
    ensures ContentLength(buf) > DRAIN_BUFFER
  {
    var z: nat :| Junk(t, z);
    assert buf[0] == t[j + 0];
    if j < z { assert buf[z - j] == t[j + (z - j)]; }
  }

  lemma HeaderStepLoose(w: World, d: Drain)
    requires DrainOk(w, d) && d.health.state.HeaderReadSome?
    requires Loose(Inbound(w, d.wire.out), d.wire.consumed, d.health)
    ensures var e := DrainStep(w, d); Loose(Inbound(w, e.wire.out), e.wire.consumed, e.health)
  {
    hide Inbound, ContentLength, Tail, TextReply, FrameOf;
    var all, some, consumed := Inbound(w, d.wire.out), d.health.some, d.wire.consumed;
    var p: nat, n: nat :| HeaderSince(all, consumed, some, p, n);
    var io := DrainIo(w, d, HEADER_SIZE - some);
    if io.Moved? {
      if io.n < HEADER_SIZE - some {
        assert HeaderSince(all, consumed + io.n, some + io.n, p, n);
      } else {
        HeaderDoneLoose(w, d, p, n);
      }
    }
  }

  /** A header completed: from the tail, no length to believe; behind it, a position
      inside the reply. */
  lemma HeaderDoneLoose(w: World, d: Drain, p: nat, n: nat)
    requires DrainOk(w, d) && d.health.state.HeaderReadSome?
    requires DrainIo(w, d, HEADER_SIZE - d.health.some) == Moved(HEADER_SIZE - d.health.some)
    requires HeaderSince(Inbound(w, d.wire.out), d.wire.consumed, d.health.some, p, n)
    ensures var e := DrainStep(w, d); Loose(Inbound(w, e.wire.out), e.wire.consumed, e.health)
  {
    hide Inbound, ContentLength, Tail, TextReply, FrameOf;
    var all, some, consumed := Inbound(w, d.wire.out), d.health.some, d.wire.consumed;
    var m := HEADER_SIZE - some;
    Piece(w, d, m);
    if consumed < n {
      var t, buf := all[p..n], StateMachine(w, d, m, ContentReadSome).buf;
      assert forall i | 0 <= i < m && consumed - p + i < |t| :: buf[i] == t[consumed - p + i];
      PieceInTail(t, consumed - p, m, buf);
    } else if !DrainStep(w, d).health.state.Undefined? {
      assert all[n..] != "";
      var content :| TextReply(content) && all[n..] == FrameOf(content);
      assert Inside(all, consumed + m, n, content);
    }
  }

  lemma ContentStepLoose(w: World, d: Drain)
    requires DrainOk(w, d) && d.health.state.ContentReadSome?
    requires Loose(Inbound(w, d.wire.out), d.wire.consumed, d.health)
    ensures var e := DrainStep(w, d); Loose(Inbound(w, e.wire.out), e.wire.consumed, e.health)
  {
    hide Inbound, Tail, TextReply, FrameOf;
    var all, consumed := Inbound(w, d.wire.out), d.wire.consumed;
    var n: nat, content: string :| Inside(all, consumed, n, content);
    var io := DrainIo(w, d, d.health.content - d.health.some);
    if io.Moved? {
      assert Inside(all, consumed + io.n, n, content);
      InsideLeavesTail(all, consumed + io.n, n, content);
    }
  }

  lemma InsideLeavesTail(all: string, consumed: nat, n: nat, content: string)
    requires Inside(all, consumed, n, content) && n + 2 <= consumed <= |all|
    ensures Tail(all[consumed..])
  {
    SuffixIsTail(content, consumed - n);
    assert all[consumed..] == all[n..][consumed - n..];
  }

  lemma {:induction false} CheckLoopLoose(w: World, d: Drain, countdown: nat)
    requires DrainOk(w, d) && Loose(Inbound(w, d.wire.out), d.wire.consumed, d.health)
    ensures var e := CheckLoop(w, d, countdown).1; Loose(Inbound(w, e.wire.out), e.wire.consumed, e.health)
    decreases countdown
  {
    hide DrainStep, Loose, Inbound;
    if countdown > 0 && !d.health.state.NoRead? {
      match d.health.state {
        case HeaderReadSome => HeaderStepLoose(w, d);
        case ContentReadSome => ContentStepLoose(w, d);
        case Undefined => assert DrainStep(w, d) == d by { UndefinedStays(w, d); }
      }
      CheckLoopLoose(w, DrainStep(w, d), countdown - 1);
    }
  }

  lemma UndefinedStays(w: World, d: Drain)
    requires DrainOk(w, d) && d.health.state.Undefined?
    ensures DrainStep(w, d) == d
  {
  }

  lemma CheckLoose(w: World, c: Client)
    requires LooseInv(w, c) && (c.open ==> !Check(w, c).1.corrupt)
    ensures LooseInv(w, Check(w, c).1)
  {
    hide CheckLoop, Loose, Inbound, Aligned;
    if c.open && !c.health.state.NoRead? { CheckLoopLoose(w, StartDrain(w, c), DEATH_COUNTDOWN); }
  }

  // ------------------------------------------------------------------- reading

  /** A request is outstanding, and at most a tail is left in front of its reply. */
  ghost predicate LooselyAsked(w: World, c: Client, before: seq<string>, request: string)
  {
    && c.open && Aligned(c.wire.out) && Frames(c.wire.out) == before + [request]
    && (before + [request])[..|before|] == before
    && c.wire.consumed <= |Replies(w, before)| && Tail(Replies(w, before)[c.wire.consumed..])
  }

  /** The reply to a request, if there is one, is a text. */
  ghost predicate TextAnswer(w: World, n: nat, request: string)
  {
    w.serve(n, request).Some? ==> TextReply(Sent(w.serve(n, request).value))
  }

  lemma InboundSplits(w: World, c: Client, before: seq<string>, request: string)
    requires LooselyAsked(w, c, before, request)
    ensures var all, n := Inbound(w, c.wire.out), |Replies(w, before)|;
      && n <= |all| && all[..n] == Replies(w, before) && all[n..] == ReplyBytes(w.serve(|before|, request))
      && all[c.wire.consumed..n] == Replies(w, before)[c.wire.consumed..]
  {
    hide Sent, Tail;
    var all, n := Inbound(w, c.wire.out), |Replies(w, before)|;
    assert all == Replies(w, before) + ReplyBytes(w.serve(|before|, request));
    assert all[c.wire.consumed..n] == all[..n][c.wire.consumed..];
  }

  lemma FrameIsText(reply: string)
    requires TextReply(Sent(reply))
    ensures Frame(reply) == FrameOf(Sent(reply)) && Frame(reply) != ""
  {
    hide TextReply, Sent, Header;
  }

  /** What the header read leaves behind when it fails. */
  lemma HeaderFailsLoose(w: World, c: Client, before: seq<string>, request: string)
    requires ClientOk(w, c) && LooselyAsked(w, c, before, request) && TextAnswer(w, |before|, request)
    requires Read(w, c.wire, HEADER_SIZE, c.timeout).ret != HEADER_SIZE
    ensures LooseInv(w, ReadResponse(w, c).1) && ReadResponse(w, c).0 == NoResult
  {
    hide Run, Tail, Replies, ContentLength, ReadContent, Inbound, TextReply, Frame, FrameOf, Sent, Frames, Rest;
    InboundSplits(w, c, before, request);
    var t := Read(w, c.wire, HEADER_SIZE, c.timeout);
    var all, n := Inbound(w, c.wire.out), |Replies(w, before)|;
    var reply := w.serve(|before|, request);
    if reply.Some? { FrameIsText(reply.value); }
    RunAllOrLess(w.kernel, HEADER_SIZE, |all| - c.wire.consumed, c.timeout, MAX_RETRIES, c.wire.clock);
    assert HeaderSince(all, c.wire.consumed + t.moved, Noted(t.ret), c.wire.consumed, n);
  }

  /** A tail in front makes the client close. */
  lemma TailCloses(w: World, c: Client, before: seq<string>, request: string)
    requires ClientOk(w, c) && LooselyAsked(w, c, before, request) && c.wire.consumed < |Replies(w, before)|
    requires Read(w, c.wire, HEADER_SIZE, c.timeout).ret == HEADER_SIZE
    ensures ReadResponse(w, c).0 == NoResult && !ReadResponse(w, c).1.open
  {
    hide Run, Tail, Replies, ContentLength, ReadContent, Frame, Sent, Frames, Rest;
    InboundSplits(w, c, before, request);
    var all, n, from := Inbound(w, c.wire.out), |Replies(w, before)|, c.wire.consumed;
    var t := Replies(w, before)[from..];
    assert t + all[n..] == all[from..];
    TailIsNoLength(t, all[n..]);
    var got := Got(w, c.wire, Read(w, c.wire, HEADER_SIZE, c.timeout));
    assert all[from..][..HEADER_SIZE] == got[..HEADER_SIZE];
    SameHeader(all[from..], got);
  }

  lemma ContentLoose(w: World, c: Client, before: seq<string>, request: string, length: nat, buf: string)
    requires ClientOk(w, c) && c.open && c.health.state.NoRead?
    requires Aligned(c.wire.out) && |Replies(w, before)| <= |Inbound(w, c.wire.out)|
    requires Inbound(w, c.wire.out)[|Replies(w, before)|..] == ReplyBytes(w.serve(|before|, request))
    requires w.serve(|before|, request).Some? && TextAnswer(w, |before|, request)
    requires length == |Sent(w.serve(|before|, request).value)|
    requires c.wire.consumed == |Replies(w, before)| + HEADER_SIZE && HEADER_SIZE + length <= |buf|
    ensures LooseInv(w, ReadContent(w, c, length, buf).1)
  {
    hide Run, Tail, Replies, TextReply, FrameOf, Sent, Rest, Inbound, Frame;
    var all, n := Inbound(w, c.wire.out), |Replies(w, before)|;
    var reply := w.serve(|before|, request).value;
    FrameIsText(reply);
    FrameLength(reply, 0);
    var u := Read(w, c.wire, length, c.timeout);
    assert Inside(all, c.wire.consumed + u.moved, n, Sent(reply));
    if u.ret == length {
      assert all[c.wire.consumed + u.moved..] == "";
      EmptyIsTail();
    }
  }

  lemma EmptyIsTail()
    ensures Tail("")
  {
  }

  /** Reading a reply, in full or not, with a tail in front or not: nothing but that
      reply is handed out. */
  lemma ReplyLoose(w: World, c: Client, before: seq<string>, request: string)
    requires ClientOk(w, c) && LooselyAsked(w, c, before, request) && TextAnswer(w, |before|, request)
    requires c.health.state.NoRead? && !c.corrupt
    ensures var (outcome, c') := ReadResponse(w, c);
      LooseInv(w, c') && (outcome.Response? ==> Answered(w, |before|, request, outcome))
  {
    hide Run, Tail, Replies, ContentLength, ReadContent, Loose, Sent, Frame, TextReply, Rest, Frames;
    var t := Read(w, c.wire, HEADER_SIZE, c.timeout);
    if t.ret != HEADER_SIZE {
      HeaderFailsLoose(w, c, before, request);
    } else if c.wire.consumed < |Replies(w, before)| {
      TailCloses(w, c, before, request);
    } else {
      ReplyAligned(w, c, before, request);
      ReplyHeaderRead(w, c, before, request);
      InboundSplits(w, c, before, request);
      var c' := c.(wire := AfterRead(w, c.wire, t));
      var length := ContentLength(Got(w, c.wire, t));
      if HEADER_SIZE + length <= CALL_BUFFER {
        ContentLoose(w, c', before, request, length, Stored(Garbage(w, c.wire.clock, CALL_BUFFER), 0, Got(w, c.wire, t)));
      }
    }
  }

  // --------------------------------------------------------- calls and whole runs

  /** What matching still needs of the transfers of a call: no drain runs past its
      buffer, and the header write of the request does not hide its progress. */
  ghost predicate SafeTransfers(w: World, c: Client)
    requires ClientOk(w, c)
  {
    var (healthy, c') := Check(w, c);
    (c.open ==> !c'.corrupt) && (healthy ==> CleanWrite(w, c'.(token := c'.token + 1)))
  }

  ghost predicate SafeCall(w: World, c: Client, payload: string)
    requires ClientOk(w, c)
  {
    SafeTransfers(w, c) && TextAnswer(w, |Frames(c.wire.out)|, Sent(payload))
  }

  lemma RequestLoose(w: World, c: Client, payload: string)
    requires LooseInv(w, c) && c.open && c.health.state.NoRead? && !c.corrupt && CleanWrite(w, c)
    ensures var (written, c') := WriteRequest(w, c, payload);
      && ClientOk(w, c')
      && (!written ==> LooseInv(w, c'))
      && (written ==> LooselyAsked(w, c', Frames(c.wire.out), Sent(payload)))
  {
    hide WriteRequest, Replies, Frame, Sent, Rest, CleanWrite, Tail;
    WriteAlignmentExactly(w, c, payload);
    var requests := Frames(c.wire.out);
    assert (requests + [Sent(payload)])[..|requests|] == requests;
  }

  lemma ExchangeMatches(w: World, c: Client, payload: string)
    requires LooseInv(w, c) && c.open && c.health.state.NoRead? && !c.corrupt && CleanWrite(w, c)
    requires TextAnswer(w, |Frames(c.wire.out)|, Sent(payload))
    ensures var (outcome, c') := Exchange(w, c, payload);
      LooseInv(w, c') && (outcome.Response? ==> Answered(w, |Frames(c.wire.out)|, Sent(payload), outcome))
  {
    hide WriteRequest, ReadResponse, CleanWrite, Loose, Answered, Frames, LooselyAsked, Sent, TextAnswer;
    RequestLoose(w, c, payload);
    var (written, c') := WriteRequest(w, c, payload);
    if written { ReplyLoose(w, c', Frames(c.wire.out), Sent(payload)); }
  }

  lemma LooseToken(w: World, c: Client, token: int)
    requires LooseInv(w, c)
    ensures LooseInv(w, c.(token := token))
  {
  }

  /** One call, aligned or not: a response is the answer to this very request. */
  lemma CallMatches(w: World, c: Client, payload: string)
    requires ClientOk(w, c) && LooseInv(w, c) && SafeCall(w, c, payload)
    ensures var (outcome, c') := Call(w, c, payload);
      LooseInv(w, c') && (outcome.Response? ==> Answered(w, |Frames(c.wire.out)|, Sent(payload), outcome))
  {
    hide LooseInv, Check, Exchange, CleanWrite, Answered, Frames, TextAnswer, Sent;
    CheckLoose(w, c);
    var (healthy, c') := Check(w, c);
    if healthy {
      LooseToken(w, c', c'.token + 1);
      HealthyIsOpen(w, c);
      ExchangeMatches(w, c'.(token := c'.token + 1), payload);
    }
  }

  lemma HealthyIsOpen(w: World, c: Client)
    requires ClientOk(w, c) && Check(w, c).0
    ensures c.open && Check(w, c).1.open && Check(w, c).1.health.state.NoRead?
  {
    hide CheckLoop;
  }

  ghost predicate SafeRun(w: World, c: Client, payloads: seq<string>)
    requires ClientOk(w, c)
    decreases |payloads|
  {
    payloads == [] || (SafeCall(w, c, payloads[0]) && SafeRun(w, Call(w, c, payloads[0]).1, payloads[1..]))
  }

  /** Main result. In every run on every kernel, with headers split and reads hidden
      as they may be: if replies are texts, every call that yields a response yields
      the answer to its own request. */
  lemma {:induction false} EveryResponseIsOwn(w: World, c: Client, payloads: seq<string>)
    requires LooseInv(w, c) && SafeRun(w, c, payloads)
    ensures forall i | 0 <= i < |payloads| && RunCalls(w, c, payloads).0[i].Response? ::
      var b := At(w, c, payloads, i);
      Answered(w, |Frames(b.wire.out)|, Sent(payloads[i]), RunCalls(w, c, payloads).0[i])
    decreases |payloads|
  {
    hide Call, SafeCall, Loose, HealthOk, WireOk, Aligned, Answered, Frames, Sent;
    if payloads != [] {
      CallMatches(w, c, payloads[0]);
      var (c1, rest) := (Call(w, c, payloads[0]).1, payloads[1..]);
      EveryResponseIsOwn(w, c1, rest);
      forall i | 0 < i < |payloads| && RunCalls(w, c, payloads).0[i].Response?
        ensures var b := At(w, c, payloads, i);
          Answered(w, |Frames(b.wire.out)|, Sent(payloads[i]), RunCalls(w, c, payloads).0[i])
      {
        assert At(w, c, payloads, i) == At(w, c1, rest, i - 1);
        assert RunCalls(w, c, payloads).0[i] == RunCalls(w, c1, rest).0[i - 1];
        assert payloads[i] == rest[i - 1];
      }
    }
  }

  /** Every aligned client may start such a run, when the reply it has not read or
      not fully, if there is one, is a text. */
  lemma AlignedIsLoose(w: World, c: Client)
    requires Inv(w, c)
    requires var n := |Frames(c.wire.out)|; n > 0 ==> TextAnswer(w, n - 1, Frames(c.wire.out)[n - 1])
    ensures LooseInv(w, c)
  {
    hide Tail, Replies, TextReply, FrameOf, Sent, Rest, Frames, Frame;
    var requests, all, consumed := Frames(c.wire.out), Inbound(w, c.wire.out), c.wire.consumed;
    EmptyIsTail();
    if c.open && !c.corrupt && !c.health.state.Undefined? {
      if c.health.state.NoRead? {
        assert all[consumed..] == "";
      } else {
        var n := Before(w, requests);
        LastReply(w, requests);
        assert all[n..n] == "";
        var reply := Outstanding(w, requests);
        if reply.Some? { FrameIsText(reply.value); }
        if c.health.state.HeaderReadSome? {
          assert HeaderSince(all, consumed, c.health.some, n, n);
        } else {
          assert Inside(all, consumed, n, Sent(reply.value));
        }
      }
    }
  }

  /** So may a client with nothing to drain and nothing left to read. */
  lemma CaughtUpIsLoose(w: World, c: Client)
    requires ClientOk(w, c) && (c.open ==> Aligned(c.wire.out))
    requires c.health.state.NoRead? && c.wire.consumed == |Inbound(w, c.wire.out)|
    ensures LooseInv(w, c)
  {
    hide Replies, Frames, Rest;
    assert Inbound(w, c.wire.out)[c.wire.consumed..] == "";
  }
}
