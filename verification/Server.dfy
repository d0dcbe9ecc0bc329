/** The per-connection loop of trpc/Server.h, on values, against its
    specification: the answers to the requests, framed, in order. */
module Server {
  import opened Json
  import opened Parser
  import opened Framing
  import opened BestEffort
  import opened Attempts
  import opened Rpc

  // ------------------------------------------------------------ specification

  /** The content of a frame a well-behaved client sends: one request object. */
  predicate RequestText(content: string)
  {
    var r := ParseValue(content, 0);
    r.Ok? && RequestOk(r.v)
  }

  lemma RequestIsObject(content: string)
    requires RequestText(content)
    ensures ParseValue(content, 0).Ok? && ParseValue(content, 0).v.Object?
  {
  }

  /** What goes back for a request, unless a callback drops it. */
  function Reply(s: Service, content: string): Option<string>
    requires RequestText(content)
  {
    var request := ParseValue(content, 0).v;
    match Handle(s, request)
    case None => None
    case Some(response) =>
      ResponsePlain(Get(request.members, "id").value.n,
                    NetCall(s, Get(request.members, "method").value.raw, Params(request)));
      Some(Dump(Object(response)))
  }

  /** The frames owed for a sequence of requests. */
  function Answers(s: Service, requests: seq<string>): string
    requires forall r | r in requests :: RequestText(r)
  {
    if requests == [] then ""
    else
      var n := |requests| - 1;
      Answers(s, requests[..n]) + (match Reply(s, requests[n]) case None => "" case Some(p) => Frame(p))
  }

  lemma {:induction false} AnswersGrow(s: Service, a: seq<string>, b: seq<string>)
    requires forall r | r in a + b :: RequestText(r)
    ensures forall r | r in a :: RequestText(r)
    ensures Answers(s, a) <= Answers(s, a + b)
    decreases |b|
  {
    assert forall r | r in a :: r in a + b;
    if b == [] {
      assert a + b == a;
    } else {
      assert (a + b)[..|a + b| - 1] == a + b[..|b| - 1];
      AnswersGrow(s, a, b[..|b| - 1]);
    }
  }

  // ------------------------------------------------------------------ the loop

  const MAX_RETRIES := 6
  const SERVER_BUFFER := 0x4000

  /** A peer: all it will ever send, and how the kernel lets it through. */
  datatype Peer = Peer(input: string, kernel: Kernel, timeout: int, pending: int)

  datatype Wire = Wire(out: string, consumed: nat, clock: nat)

  /** Why a round does not lead to another. */
  datatype Status = Going | Idle | ReadFailed | WriteFailed | Thrown

  /** Well-formed frames that fit the buffer, the cut one at the end included. */
  predicate StreamOk(input: string)
  {
    && (forall r | r in Frames(input) :: RequestText(r) && HEADER_SIZE + |r| <= SERVER_BUFFER)
    && (HEADER_SIZE <= |Rest(input)| ==> HEADER_SIZE + ContentLength(Rest(input)) <= SERVER_BUFFER)
  }

  lemma EmptyIsOk()
    ensures StreamOk("")
  {
  }

  predicate PeerOk(p: Peer) { StreamOk(p.input) }

  function Read(p: Peer, wire: Wire, size: nat): (t: Transfer)
    requires wire.consumed <= |p.input|
    ensures t.moved <= size && wire.consumed + t.moved <= |p.input|
    ensures t.ret == -1 || t.ret == t.moved
  {
    Run(p.kernel, size, |p.input| - wire.consumed, p.timeout, MAX_RETRIES, wire.clock)
  }

  function AfterRead(wire: Wire, t: Transfer): Wire
  {
    wire.(consumed := wire.consumed + t.moved, clock := t.clock)
  }

  /** `bestEffortWrite`: whether all went out, and what did. */
  function Write(p: Peer, wire: Wire, data: string): (r: (bool, Wire))
    ensures r.1.consumed == wire.consumed && wire.clock <= r.1.clock
    ensures wire.out <= r.1.out <= wire.out + data
    ensures r.0 ==> r.1.out == wire.out + data
  {
    var t := Run(p.kernel, |data|, |data|, p.timeout, MAX_RETRIES, wire.clock);
    (t.ret == |data|, Wire(wire.out + data[..t.moved], wire.consumed, t.clock))
  }

  /** Receive one frame: pending, header, content. */
  function Receive(p: Peer, wire: Wire): (r: (Status, string, Wire))
    requires wire.consumed <= |p.input|
    ensures wire.consumed <= r.2.consumed <= |p.input| && r.2.out == wire.out && wire.clock <= r.2.clock
    ensures r.0.Going? ==> wire.consumed + HEADER_SIZE <= r.2.consumed
    ensures r.0.Going? || r.0.Idle? || r.0.ReadFailed?
  {
    var w0 := wire.(clock := wire.clock + 1);
    if !Pending(p.kernel, p.pending, wire.clock) then (Idle, "", w0)
    else
      var t := Read(p, w0, HEADER_SIZE);
      var w1 := AfterRead(w0, t);
      if t.ret != HEADER_SIZE then (ReadFailed, "", w1)
      else
        var length := ContentLength(p.input[w0.consumed..w1.consumed]);
        var u := Read(p, w1, length);
        var w2 := AfterRead(w1, u);
        if u.ret != length then (ReadFailed, "", w2)
        else (Going, p.input[w1.consumed..w2.consumed], w2)
  }

  /** Send one response: header, then content. */
  function Send(p: Peer, wire: Wire, payload: string): (r: (bool, Wire))
    ensures r.1.consumed == wire.consumed && wire.clock <= r.1.clock
  {
    var (ok, w1) := Write(p, wire, Header(|Sent(payload)|));
    if !ok then (false, w1) else Write(p, w1, Sent(payload))
  }

  /** One round of `onAccept`. */
  function Round(s: Service, p: Peer, wire: Wire): (r: (Status, Wire))
    requires wire.consumed <= |p.input|
    ensures wire.consumed <= r.1.consumed <= |p.input| && wire.clock <= r.1.clock
    ensures r.0.Going? ==> wire.consumed < r.1.consumed
  {
    var (status, content, w1) := Receive(p, wire);
    if !status.Going? then (status, w1)
    else if !RequestText(content) then (Thrown, w1)
    else
      match Reply(s, content)
      case None => (Going, w1)
      case Some(payload) =>
        var (ok, w2) := Send(p, w1, payload);
        (if ok then Going else WriteFailed, w2)
  }

  function Serve(s: Service, p: Peer, wire: Wire): (r: (Status, Wire))
    requires wire.consumed <= |p.input|
    ensures r.1.consumed <= |p.input|
    decreases |p.input| - wire.consumed
  {
    var (status, w1) := Round(s, p, wire);
    if status.Going? then Serve(s, p, w1) else (status, w1)
  }

  // ---------------------------------------------------------------- refinement

  /** Between rounds: whole frames consumed, and exactly what they are owed sent. */
  ghost predicate Caught(s: Service, p: Peer, wire: Wire)
  {
    && wire.consumed <= |p.input| && Aligned(p.input[..wire.consumed])
    && (forall r | r in Frames(p.input[..wire.consumed]) :: RequestText(r))
    && wire.out == Answers(s, Frames(p.input[..wire.consumed]))
  }

  /** What was taken since the last frame boundary. */
  lemma PartFrames(p: Peer, from: nat, to: nat)
    requires from <= to <= |p.input| && Aligned(p.input[..from])
    ensures Frames(p.input[..to]) == Frames(p.input[..from]) + Frames(p.input[from..to])
    ensures Rest(p.input[..to]) == Rest(p.input[from..to])
  {
    hide Frames, Rest;
    assert p.input[..from] + p.input[from..to] == p.input[..to];
    FramesAppend(p.input[..from], p.input[from..to]);
    assert "" + p.input[from..to] == p.input[from..to];
  }

  lemma FramesOfPart(p: Peer, k: nat)
    requires k <= |p.input|
    ensures Frames(p.input[..k]) <= Frames(p.input)
  {
    hide Frames, Rest;
    assert p.input[..k] + p.input[k..] == p.input;
    FramesAppend(p.input[..k], p.input[k..]);
  }

  lemma EmptyIsNoRequest()
    ensures !RequestText("")
  {
  }

  /** The four header bytes and `n` more, from a frame boundary on. */
  lemma HeaderThen(p: Peer, from: nat, length: nat, n: nat)
    requires from + HEADER_SIZE + n <= |p.input| && n <= length
    requires ContentLength(p.input[from..from + HEADER_SIZE]) == length
    ensures var part := p.input[from..from + HEADER_SIZE + n];
      if n == length then Frames(part) == [p.input[from + HEADER_SIZE..from + HEADER_SIZE + n]] && Rest(part) == ""
      else Frames(part) == []
  {
    hide ContentLength;
    var part := p.input[from..from + HEADER_SIZE + n];
    assert part[..HEADER_SIZE] == p.input[from..from + HEADER_SIZE];
    SameHeader(part, p.input[from..from + HEADER_SIZE]);
    assert part[HEADER_SIZE..] == p.input[from + HEADER_SIZE..from + HEADER_SIZE + n];
    if n == length {
      assert part[HEADER_SIZE..HEADER_SIZE + n] == p.input[from + HEADER_SIZE..from + HEADER_SIZE + n];
      assert part[HEADER_SIZE + n..] == "" && Frames("") == [];
    }
  }

  /** The frame received is the next one of the stream; when none is received, no
      whole frame was taken from it. */
  lemma ReceivesNext(p: Peer, wire: Wire)
    requires PeerOk(p) && wire.consumed <= |p.input| && Aligned(p.input[..wire.consumed])
    ensures var (status, content, w1) := Receive(p, wire);
      var before, after := Frames(p.input[..wire.consumed]), Frames(p.input[..w1.consumed]);
      if status.Going? then Aligned(p.input[..w1.consumed]) && after == before + [content]
      else after == before
  {
    hide Frames, Rest, ContentLength, RequestText, Run;
    var w0 := wire.(clock := wire.clock + 1);
    if Pending(p.kernel, p.pending, wire.clock) {
      var t := Read(p, w0, HEADER_SIZE);
      var w1 := AfterRead(w0, t);
      PartFrames(p, wire.consumed, w1.consumed);
      RunAllOrLess(p.kernel, HEADER_SIZE, |p.input| - wire.consumed, p.timeout, MAX_RETRIES, w0.clock);
      assert t == Run(p.kernel, HEADER_SIZE, |p.input| - w0.consumed, p.timeout, MAX_RETRIES, w0.clock);
      if t.ret != HEADER_SIZE {
        ShortPart(p.input[wire.consumed..w1.consumed]);
      } else {
        var length := ContentLength(p.input[w0.consumed..w1.consumed]);
        var u := Read(p, w1, length);
        var w2 := AfterRead(w1, u);
        PartFrames(p, wire.consumed, w2.consumed);
        HeaderThen(p, wire.consumed, length, u.moved);
        assert u == Run(p.kernel, length, |p.input| - w1.consumed, p.timeout, MAX_RETRIES, w1.clock);
        if length > 0 { RunAllOrLess(p.kernel, length, |p.input| - w1.consumed, p.timeout, MAX_RETRIES, w1.clock); }
        if u.moved == length {
          FramesOfPart(p, w2.consumed);
          var last := p.input[w1.consumed..w2.consumed];
          assert Frames(p.input[..w2.consumed])[|Frames(p.input[..wire.consumed])|] == last;
          assert last in Frames(p.input);
          EmptyIsNoRequest();
        }
      }
    }
  }

  lemma ShortPart(part: string)
    requires |part| < HEADER_SIZE
    ensures Frames(part) == []
  {
  }

  /** A round that goes on catches up again; one that stops has sent no more than
      it owes, and all of it unless a write failed. */
  lemma RoundRefines(s: Service, p: Peer, wire: Wire)
    requires PeerOk(p) && Caught(s, p, wire)
    ensures var (status, w) := Round(s, p, wire);
      && !status.Thrown?
      && (forall r | r in Frames(p.input[..w.consumed]) :: RequestText(r))
      && w.out <= Answers(s, Frames(p.input[..w.consumed]))
      && (!status.WriteFailed? ==> w.out == Answers(s, Frames(p.input[..w.consumed])))
      && (status.Going? ==> Caught(s, p, w))
  {
    hide Frames, Rest, Receive, RequestText, Reply, Send, ContentLength, Frame;
    ReceivesNext(p, wire);
    var (status, content, w1) := Receive(p, wire);
    FramesOfPart(p, w1.consumed);
    var before, after := Frames(p.input[..wire.consumed]), Frames(p.input[..w1.consumed]);
    forall r | r in after ensures RequestText(r) { assert r in Frames(p.input); }
    if status.Going? {
      assert after[|before|] == content && after[..|before|] == before;
      var reply := Reply(s, content);
      if reply.Some? { SendFrames(p, w1, reply.value); }
    }
  }

  lemma SendFrames(p: Peer, wire: Wire, payload: string)
    ensures var (ok, w) := Send(p, wire, payload);
      w.out <= wire.out + Frame(payload) && (ok ==> w.out == wire.out + Frame(payload))
  {
    hide Write, Sent, Header;
    var (ok, w1) := Write(p, wire, Header(|Sent(payload)|));
    var h, c := Header(|Sent(payload)|), Sent(payload);
    assert (wire.out + h) + c == wire.out + (h + c);
    assert wire.out + h <= wire.out + (h + c);
  }

  /** Main result, for every chunking of the input and every kernel: at all times
      the server has written a prefix of the answers to the requests it was sent,
      in order; and when it stops for any reason but a failed write, exactly the
      answers to the requests it has received. */
  lemma {:induction false} ServeRefines(s: Service, p: Peer, wire: Wire)
    requires PeerOk(p) && Caught(s, p, wire)
    ensures var (status, w) := Serve(s, p, wire);
      && (forall r | r in Frames(p.input) :: RequestText(r))
      && (forall r | r in Frames(p.input[..w.consumed]) :: RequestText(r))
      && w.out <= Answers(s, Frames(p.input))
      && (!status.WriteFailed? ==> w.out == Answers(s, Frames(p.input[..w.consumed])))
    decreases |p.input| - wire.consumed
  {
    hide Frames, Rest, Round, RequestText, Answers, ContentLength;
    RoundRefines(s, p, wire);
    var (status, w) := Round(s, p, wire);
    if status.Going? {
      ServeRefines(s, p, w);
    } else {
      FramesOfPart(p, w.consumed);
      var done, all := Frames(p.input[..w.consumed]), Frames(p.input);
      assert done + all[|done|..] == all;
      AnswersGrow(s, done, all[|done|..]);
    }
  }

  lemma FirstOrRest(left: string)
    requires HEADER_SIZE <= |left|
    ensures if HEADER_SIZE + ContentLength(left) <= |left| then Frames(left) != [] && |Frames(left)[0]| == ContentLength(left)
      else Rest(left) == left
  {
    hide ContentLength;
  }

  /** At a frame boundary, what the next header announces fits the buffer. */
  lemma NextFits(p: Peer, from: nat)
    requires PeerOk(p) && from + HEADER_SIZE <= |p.input| && Aligned(p.input[..from])
    ensures HEADER_SIZE + ContentLength(p.input[from..from + HEADER_SIZE]) <= SERVER_BUFFER
  {
    hide RequestText, ContentLength, Frames, Rest;
    var left, header := p.input[from..], p.input[from..from + HEADER_SIZE];
    assert p.input[..from] + left == p.input && "" + left == left;
    FramesAppend(p.input[..from], left);
    assert left[..HEADER_SIZE] == header;
    SameHeader(left, header);
    FirstOrRest(left);
    if HEADER_SIZE + ContentLength(left) <= |left| {
      assert Frames(p.input)[|Frames(p.input[..from])|] == Frames(left)[0];
    }
  }

  /** A fresh connection has nothing to catch up with. */
  lemma FreshIsCaught(s: Service, p: Peer, clock: nat)
    ensures Caught(s, p, Wire("", 0, clock))
  {
    assert p.input[..0] == "";
  }

  /** The next `size` bytes are there, and enough attempts in a row bring them. */
  ghost predicate Arrives(p: Peer, from: nat, clock: nat, size: nat)
  {
    from + size <= |p.input| && exists n: nat | n <= 6 :: EnoughIn(p.kernel, size, p.timeout, clock, n)
  }

  /** A peer from which nothing comes in time ends the loop there and then, with nothing
      read and nothing more written. */
  lemma IdlePeerStops(s: Service, p: Peer, wire: Wire)
    requires wire.consumed <= |p.input| && (p.kernel(wire.clock).elapsed > p.pending || p.kernel(wire.clock).poll <= 0)
    ensures Serve(s, p, wire) == (Idle, wire.(clock := wire.clock + 1))
  {
    PendingIsOneAttempt(p.kernel, p.pending, wire.clock);
  }

  /** Exactly when a frame is received: its first byte comes within the pending time,
      and then its header and its content each within the timeout. */
  lemma ReceivesExactly(p: Peer, wire: Wire)
    requires wire.consumed <= |p.input|
    ensures var begins := p.kernel(wire.clock).elapsed <= p.pending && p.kernel(wire.clock).poll > 0
                          && Arrives(p, wire.consumed, wire.clock + 1, HEADER_SIZE);
      && (Receive(p, wire).0.Going? ==> begins)
      && (begins ==>
            var t := Read(p, wire.(clock := wire.clock + 1), HEADER_SIZE);
            var from := wire.consumed + HEADER_SIZE;
            var length := ContentLength(p.input[wire.consumed..from]);
            length > 0 ==> (Receive(p, wire).0.Going? <==> Arrives(p, from, t.clock, length)))
  {
    hide Run, ContentLength, EnoughIn;
    PendingIsOneAttempt(p.kernel, p.pending, wire.clock);
    var w0 := wire.(clock := wire.clock + 1);
    var t := Read(p, w0, HEADER_SIZE);
    RunSucceedsExactly(p.kernel, HEADER_SIZE, |p.input| - wire.consumed, p.timeout, MAX_RETRIES, w0.clock);
    var from := wire.consumed + HEADER_SIZE;
    if t.ret == HEADER_SIZE {
      var length := ContentLength(p.input[wire.consumed..from]);
      if length > 0 {
        RunSucceedsExactly(p.kernel, length, |p.input| - from, p.timeout, MAX_RETRIES, t.clock);
      }
    }
  }

  /** From some time on the kernel gets every transfer through, whatever it takes, and
      no wait for a first byte is late or silent. */
  ghost predicate Attentive(p: Peer, from: nat)
  {
    && Steady(p.kernel, p.timeout, MAX_RETRIES, from)
    && forall t: nat | from <= t :: p.kernel(t).elapsed <= p.pending && p.kernel(t).poll > 0
  }

  lemma AttentiveLater(p: Peer, from: nat, later: nat)
    requires Attentive(p, from) && from <= later
    ensures Attentive(p, later)
  {
    SteadyLater(p.kernel, p.timeout, MAX_RETRIES, from, later);
  }

  lemma AnswerWritten(p: Peer, wire: Wire, payload: string)
    requires Attentive(p, wire.clock)
    ensures Send(p, wire, payload).0
  {
    hide Run, Steady;
    SteadyRun(p.kernel, HEADER_SIZE, HEADER_SIZE, p.timeout, MAX_RETRIES, wire.clock);
    var w1 := Write(p, wire, Header(|Sent(payload)|)).1;
    SteadyLater(p.kernel, p.timeout, MAX_RETRIES, wire.clock, w1.clock);
    SteadyRun(p.kernel, |Sent(payload)|, |Sent(payload)|, p.timeout, MAX_RETRIES, w1.clock);
  }

  /** There the loop stops receiving only when no whole frame is left. */
  lemma ReceivesAll(p: Peer, wire: Wire)
    requires wire.consumed <= |p.input| && Attentive(p, wire.clock)
    requires !Receive(p, wire).0.Going?
    ensures Frames(p.input[wire.consumed..]) == []
  {
    hide Run, ContentLength, Steady;
    var w0 := wire.(clock := wire.clock + 1);
    PendingIsOneAttempt(p.kernel, p.pending, wire.clock);
    var left := p.input[wire.consumed..];
    if HEADER_SIZE <= |left| {
      SteadyLater(p.kernel, p.timeout, MAX_RETRIES, wire.clock, w0.clock);
      SteadyRun(p.kernel, HEADER_SIZE, |left|, p.timeout, MAX_RETRIES, w0.clock);
      var w1 := AfterRead(w0, Read(p, w0, HEADER_SIZE));
      assert left[..HEADER_SIZE] == p.input[w0.consumed..w1.consumed];
      SameHeader(left, p.input[w0.consumed..w1.consumed]);
      var length := ContentLength(p.input[w0.consumed..w1.consumed]);
      if HEADER_SIZE + length <= |left| {
        SteadyLater(p.kernel, p.timeout, MAX_RETRIES, wire.clock, w1.clock);
        SteadyRun(p.kernel, length, |p.input| - w1.consumed, p.timeout, MAX_RETRIES, w1.clock);
      }
    }
  }

  /** There every request is answered: the output is all the answers. */
  lemma {:induction false} SteadyAnswersAll(s: Service, p: Peer, wire: Wire)
    requires PeerOk(p) && Caught(s, p, wire) && Attentive(p, wire.clock)
    ensures forall r | r in Frames(p.input) :: RequestText(r)
    ensures Serve(s, p, wire).1.out == Answers(s, Frames(p.input))
    decreases |p.input| - wire.consumed
  {
    hide Frames, Rest, Receive, RequestText, Answers, ContentLength, Reply, Send, Attentive;
    RoundRefines(s, p, wire);
    ReceivesNext(p, wire);
    var (status, w) := Round(s, p, wire);
    var (received, content, w1) := Receive(p, wire);
    if status.Going? {
      AttentiveLater(p, wire.clock, w.clock);
      SteadyAnswersAll(s, p, w);
    } else if received.Going? {
      AttentiveLater(p, wire.clock, w1.clock);
      AnswerWritten(p, w1, Reply(s, content).value);
      assert false;
    } else {
      ReceivesAll(p, wire);
      assert p.input[..wire.consumed] + p.input[wire.consumed..] == p.input;
      FramesAppend(p.input[..wire.consumed], p.input[wire.consumed..]);
      assert "" + p.input[wire.consumed..] == p.input[wire.consumed..];
      assert Frames(p.input) == Frames(p.input[..wire.consumed]);
    }
  }
}
