/** The client side of a connection, on values: the drain state machine of
    trpc/detail/Health.h and the call protocol of trpc/Client.h.

    A `World` is everything a client does not control. The server answers the
    request frames in the order it finds them in the stream the client wrote;
    `serve(i, request)` is its answer to the i-th, `None` when a callback drops
    it. `kernel` says how much of that has arrived, and when: late, short, cut
    off or failing reads and writes are all kernels. `stack(t, i)` is what an
    uninitialised buffer holds in a frame entered at time `t`. */
module Connection {
  import opened Json
  import opened Framing
  import opened BestEffort

  datatype World = World(serve: (nat, string) -> Option<string>, kernel: Kernel, stack: (nat, nat) -> char)

  /** Bytes written, bytes taken from the inbound stream, attempts made. */
  datatype Wire = Wire(out: string, consumed: nat, clock: nat)

  function ReplyBytes(reply: Option<string>): string
  {
    if reply.None? then "" else Frame(reply.value)
  }

  function Replies(w: World, requests: seq<string>): string
  {
    if requests == [] then ""
    else
      var n := |requests| - 1;
      Replies(w, requests[..n]) + ReplyBytes(w.serve(n, requests[n]))
  }

  /** All the server can have sent once `out` was written. */
  function Inbound(w: World, out: string): string { Replies(w, Frames(out)) }

  predicate WireOk(w: World, wire: Wire) { wire.consumed <= |Inbound(w, wire.out)| }

  lemma {:induction false} RepliesGrow(w: World, a: seq<string>, b: seq<string>)
    ensures |Replies(w, a)| <= |Replies(w, a + b)|
    ensures Replies(w, a + b)[..|Replies(w, a)|] == Replies(w, a)
    decreases |b|
  {
    if b == [] {
      assert a + b == a;
    } else {
      RepliesGrow(w, a, b[..|b| - 1]);
      assert (a + b)[..|a + b| - 1] == a + b[..|b| - 1];
    }
  }

  /** Writing never takes back what was already there to read. */
  lemma InboundGrows(w: World, out: string, more: string)
    ensures |Inbound(w, out)| <= |Inbound(w, out + more)|
  {
    FramesAppend(out, more);
    RepliesGrow(w, Frames(out), Frames(Rest(out) + more));
  }

  function Garbage(w: World, clock: nat, size: nat): (buf: string)
    ensures |buf| == size
  {
    seq(size, i requires 0 <= i => w.stack(clock, i))
  }

  // ----------------------------------------------------------- transfers

  const MAX_RETRIES := 10

  function Read(w: World, wire: Wire, size: nat, timeout: int): (t: Transfer)
    requires WireOk(w, wire)
    ensures t.moved <= size && wire.consumed + t.moved <= |Inbound(w, wire.out)|
    ensures (t.ret == -1 || t.ret == t.moved) && wire.clock <= t.clock
  {
    Run(w.kernel, size, |Inbound(w, wire.out)| - wire.consumed, timeout, MAX_RETRIES, wire.clock)
  }

  function Write(w: World, wire: Wire, size: nat, timeout: int): (t: Transfer)
    ensures t.moved <= size && (t.ret == -1 || t.ret == t.moved) && wire.clock <= t.clock
  {
    Run(w.kernel, size, size, timeout, MAX_RETRIES, wire.clock)
  }

  function AfterRead(w: World, wire: Wire, t: Transfer): (wire': Wire)
    requires wire.consumed + t.moved <= |Inbound(w, wire.out)|
    ensures WireOk(w, wire')
  {
    wire.(consumed := wire.consumed + t.moved, clock := t.clock)
  }

  /** The bytes a read stored. */
  function Got(w: World, wire: Wire, t: Transfer): (bytes: string)
    requires wire.consumed + t.moved <= |Inbound(w, wire.out)|
    ensures |bytes| == t.moved
  {
    Inbound(w, wire.out)[wire.consumed..wire.consumed + t.moved]
  }

  function AfterWrite(w: World, wire: Wire, data: string, t: Transfer): (wire': Wire)
    requires t.moved <= |data| && WireOk(w, wire)
    ensures WireOk(w, wire')
  {
    InboundGrows(w, wire.out, data[..t.moved]);
    wire.(out := wire.out + data[..t.moved], clock := t.clock)
  }

  // ---------------------------------------------------------------- health

  datatype HealthState = Undefined | NoRead | HeaderReadSome | ContentReadSome

  /** `_some`, `_content`, `_state`. */
  datatype Health = Health(some: int, content: int, state: HealthState)

  /** What `set` is given: part of a header, or part of a content. */
  predicate HealthOk(h: Health)
  {
    && (h.state.HeaderReadSome? ==> 0 <= h.some < HEADER_SIZE)
    && (h.state.ContentReadSome? ==> 0 <= h.some <= h.content)
  }

  const DRAIN_BUFFER := 0x1000
  const DEATH_COUNTDOWN := 5

  /** A drain under way: its buffer, whether a read ran past the buffer, and how
      many reads it made. */
  datatype Drain = Drain(health: Health, wire: Wire, buf: string, overrun: bool, syscalls: nat)

  predicate DrainOk(w: World, d: Drain)
  {
    HealthOk(d.health) && WireOk(w, d.wire) && |d.buf| == DRAIN_BUFFER
  }

  /** The non-blocking `::read` of `stateMachine`. */
  function DrainIo(w: World, d: Drain, boundary: nat): Io
    requires DrainOk(w, d)
  {
    Settle(w.kernel(d.wire.clock).io, boundary, |Inbound(w, d.wire.out)| - d.wire.consumed)
  }

  function StateMachine(w: World, d: Drain, boundary: nat, next: HealthState): (d': Drain)
    requires DrainOk(w, d)
    ensures d'.wire.out == d.wire.out && |d'.buf| == DRAIN_BUFFER && WireOk(w, d'.wire)
  {
    var io := DrainIo(w, d, boundary);
    var n := if io.Moved? then io.n else 0;
    var bytes := Inbound(w, d.wire.out)[d.wire.consumed..d.wire.consumed + n];
    Drain(
      if !io.Moved? then d.health.(state := Undefined)
      else if n < boundary then d.health.(some := d.health.some + n)
      else d.health.(some := 0, state := next),
      d.wire.(consumed := d.wire.consumed + n, clock := d.wire.clock + 1),
      if n <= DRAIN_BUFFER then Stored(d.buf, 0, bytes) else d.buf,
      d.overrun || n > DRAIN_BUFFER,
      d.syscalls + 1)
  }

  /** One round of the switch in `check`, in a state other than NO_READ. */
  function DrainStep(w: World, d: Drain): (d': Drain)
    requires DrainOk(w, d)
    ensures DrainOk(w, d') && d'.wire.out == d.wire.out && d'.syscalls <= d.syscalls + 1 && d.wire.clock <= d'.wire.clock
  {
    match d.health.state
    case HeaderReadSome =>
      var e := StateMachine(w, d, HEADER_SIZE - d.health.some, ContentReadSome);
      if !e.health.state.ContentReadSome? then e
      else
        var length := ContentLength(e.buf);
        e.(health := e.health.(content := length, state := if length > DRAIN_BUFFER then Undefined else ContentReadSome))
    case ContentReadSome => StateMachine(w, d, d.health.content - d.health.some, NoRead)
    case _ => d
  }

  function CheckLoop(w: World, d: Drain, countdown: nat): (r: (bool, Drain))
    requires DrainOk(w, d)
    ensures DrainOk(w, r.1) && r.1.wire.out == d.wire.out && d.wire.clock <= r.1.wire.clock
    ensures r.0 ==> r.1.health.state.NoRead?
    ensures r.1.syscalls <= d.syscalls + countdown
    decreases countdown
  {
    if countdown == 0 then (false, d)
    else if d.health.state.NoRead? then (true, d)
    else CheckLoop(w, DrainStep(w, d), countdown - 1)
  }

  // ---------------------------------------------------------------- client

  /** `corrupt` is not a field of the source: it records that a drain has run
      past its buffer, after which C++ promises nothing. */
  datatype Client = Client(open: bool, health: Health, token: int, timeout: int, wire: Wire, corrupt: bool)

  predicate ClientOk(w: World, c: Client) { HealthOk(c.health) && WireOk(w, c.wire) }

  function Close(c: Client): Client { c.(open := false) }

  /** A frame entered at time `clock` starts draining with the buffer it finds. */
  function StartDrain(w: World, c: Client): (d: Drain)
    requires ClientOk(w, c)
    ensures DrainOk(w, d)
  {
    Drain(c.health, c.wire, Garbage(w, c.wire.clock, DRAIN_BUFFER), false, 0)
  }

  /** `_health.check(_socket)`. */
  function Check(w: World, c: Client): (r: (bool, Client))
    requires ClientOk(w, c)
    ensures ClientOk(w, r.1) && r.1 == c.(health := r.1.health, wire := r.1.wire, corrupt := r.1.corrupt)
    ensures r.1.wire.out == c.wire.out && c.wire.clock <= r.1.wire.clock
    ensures r.0 ==> c.open && r.1.health.state.NoRead?
  {
    if !c.open then (false, c)
    else if c.health.state.NoRead? then (true, c)
    else
      var (healthy, d) := CheckLoop(w, StartDrain(w, c), DEATH_COUNTDOWN);
      (healthy, c.(health := d.health, wire := d.wire, corrupt := c.corrupt || d.overrun))
  }

  /** The second write of `call`. */
  function WriteContent(w: World, c: Client, content: string): (r: (bool, Client))
    requires ClientOk(w, c)
    ensures ClientOk(w, r.1) && r.1 == c.(open := r.1.open, wire := r.1.wire)
    ensures r.1.wire.consumed == c.wire.consumed && c.wire.clock <= r.1.wire.clock
    ensures r.1.open == (c.open && r.0)
  {
    var u := Write(w, c.wire, |content|, c.timeout);
    var c' := c.(wire := AfterWrite(w, c.wire, content, u));
    if u.ret != |content| then (false, Close(c')) else (true, c')
  }

  /** The two writes of `call`: header, then content. */
  function WriteRequest(w: World, c: Client, payload: string): (r: (bool, Client))
    requires ClientOk(w, c)
    ensures ClientOk(w, r.1) && r.1 == c.(open := r.1.open, wire := r.1.wire)
    ensures r.1.wire.consumed == c.wire.consumed && c.wire.clock <= r.1.wire.clock
    ensures r.0 ==> r.1.open == c.open
  {
    var header := Header(|Sent(payload)|);
    var t := Write(w, c.wire, HEADER_SIZE, c.timeout);
    var c' := c.(wire := AfterWrite(w, c.wire, header, t));
    if t.ret != HEADER_SIZE then (false, if t.ret > 0 then Close(c') else c')
    else WriteContent(w, c', Sent(payload))
  }

  const CALL_BUFFER := 0x4000

  /** `Response` holds the memory `decode` parses: the content, then whatever the
      rest of the buffer holds. */
  datatype Outcome = NoResult | Response(memory: string)

  /** `std::max(0, some)`: what is noted of a failed read. */
  function Noted(some: int): nat { if some >= 0 then some else 0 }

  /** The second read of `call`, into the rest of its buffer. */
  function ReadContent(w: World, c: Client, length: nat, buf: string): (r: (Outcome, Client))
    requires ClientOk(w, c) && HEADER_SIZE + length <= |buf|
    ensures ClientOk(w, r.1) && r.1 == c.(health := r.1.health, wire := r.1.wire) && r.1.wire.out == c.wire.out
    ensures c.wire.clock <= r.1.wire.clock
  {
    var u := Read(w, c.wire, length, c.timeout);
    var c' := c.(wire := AfterRead(w, c.wire, u));
    if u.ret != length then (NoResult, c'.(health := Health(Noted(u.ret), length, ContentReadSome)))
    else (Response(Got(w, c.wire, u) + buf[HEADER_SIZE + length..]), c')
  }

  /** The two reads of `call`: header, then content. */
  function ReadResponse(w: World, c: Client): (r: (Outcome, Client))
    requires ClientOk(w, c)
    ensures ClientOk(w, r.1) && r.1 == c.(open := r.1.open, health := r.1.health, wire := r.1.wire)
    ensures r.1.wire.out == c.wire.out && c.wire.clock <= r.1.wire.clock
  {
    var buf := Garbage(w, c.wire.clock, CALL_BUFFER);
    var t := Read(w, c.wire, HEADER_SIZE, c.timeout);
    var c' := c.(wire := AfterRead(w, c.wire, t));
    if t.ret != HEADER_SIZE then (NoResult, c'.(health := Health(Noted(t.ret), 0, HeaderReadSome)))
    else
      var length := ContentLength(Got(w, c.wire, t));
      if HEADER_SIZE + length > CALL_BUFFER then (NoResult, Close(c'))
      else ReadContent(w, c', length, Stored(buf, 0, Got(w, c.wire, t)))
  }

  /** `call` on a healthy connection: write the request, read the response. */
  function Exchange(w: World, c: Client, payload: string): (r: (Outcome, Client))
    requires ClientOk(w, c)
    ensures ClientOk(w, r.1) && c.wire.clock <= r.1.wire.clock
  {
    var (written, c') := WriteRequest(w, c, payload);
    if !written then (NoResult, c') else ReadResponse(w, c')
  }

  /** `call`, up to the bytes of the response. A healthy client acquires a fresh
      token first; `payload` is the request built with it. */
  function Call(w: World, c: Client, payload: string): (r: (Outcome, Client))
    requires ClientOk(w, c)
    ensures ClientOk(w, r.1) && c.wire.clock <= r.1.wire.clock
  {
    var (healthy, c') := Check(w, c);
    if !healthy then (NoResult, c') else Exchange(w, c'.(token := c'.token + 1), payload)
  }
}
