/** `Health` and `Client` as objects that update their fields in place. Every
    method does to the fields what the function of the same name in
    Connection.dfy does to values, so the theorems there hold of the objects. */
module ClientMachine {
  import opened Framing
  import opened BestEffort
  import C = Connection

  /** A buffer on the stack holds what was there before. */
  method StackBuffer(w: C.World, clock: nat, size: nat) returns (buf: array<char>)
    ensures fresh(buf) && buf[..] == C.Garbage(w, clock, size)
  {
    buf := new char[size](i requires 0 <= i => w.stack(clock, i));
  }

  class Health {
    var some: int
    var content: int
    var state: C.HealthState

    function Value(): C.Health
      reads this
    {
      C.Health(some, content, state)
    }

    constructor ()
      ensures Value() == C.Health(0, 0, C.NoRead)
    {
      some, content, state := 0, 0, C.NoRead;
    }

    method Set(some: int, state: C.HealthState, content: int)
      modifies this
      ensures Value() == C.Health(some, content, state)
    {
      this.some := some;
      this.state := state;
      this.content := content;
    }

    /** The drain `d` describes this object, the socket and the buffer. */
    ghost predicate Holds(socket: Socket, buf: array<char>, d: C.Drain)
      reads this, socket, buf
    {
      && d.health == Value() && d.buf == buf[..]
      && d.wire == C.Wire(socket.out, socket.consumed, socket.clock)
    }

    /** One non-blocking read of at most `boundary` bytes into the start of `buf`. */
    method StateMachine(w: C.World, socket: Socket, buf: array<char>, boundary: nat, next: C.HealthState, ghost d: C.Drain)
        returns (ghost d': C.Drain)
      requires socket.kernel == w.kernel && C.DrainOk(w, d) && Holds(socket, buf, d)
      modifies this, socket`consumed, socket`clock, buf
      ensures d' == C.StateMachine(w, d, boundary, next) && Holds(socket, buf, d')
    {
      hide C.Replies, Frames, Rest;
      d' := C.StateMachine(w, d, boundary, next);
      var inbound := C.Inbound(w, socket.out);
      var io := Settle(socket.kernel(socket.clock).io, boundary, |inbound| - socket.consumed);
      socket.clock := socket.clock + 1;
      if !io.Moved? {
        state := C.Undefined;
        return;
      }
      var ret := io.n;
      if ret <= buf.Length {
        forall i | 0 <= i < ret { buf[i] := inbound[socket.consumed + i]; }
      }
      socket.consumed := socket.consumed + ret;
      if ret < boundary {
        some := some + ret;
      } else {
        some := 0;
        state := next;
      }
    }

    method Step(w: C.World, socket: Socket, buf: array<char>, ghost d: C.Drain) returns (ghost d': C.Drain)
      requires socket.kernel == w.kernel && C.DrainOk(w, d) && Holds(socket, buf, d)
      modifies this, socket`consumed, socket`clock, buf
      ensures d' == C.DrainStep(w, d) && Holds(socket, buf, d')
    {
      hide C.StateMachine;
      d' := d;
      match state
      case HeaderReadSome =>
        d' := StateMachine(w, socket, buf, HEADER_SIZE - some, C.ContentReadSome, d);
        if state == C.ContentReadSome {
          var length := ContentLength(buf[..]);
          content := length;
          if length > buf.Length { state := C.Undefined; }
          d' := d'.(health := Value());
        }
      case ContentReadSome =>
        d' := StateMachine(w, socket, buf, content - some, C.NoRead, d);
      case NoRead =>
      case Undefined =>
    }

    method Check(w: C.World, socket: Socket, open: bool) returns (ok: bool, ghost overrun: bool)
      requires socket.kernel == w.kernel && C.HealthOk(Value())
      requires C.WireOk(w, C.Wire(socket.out, socket.consumed, socket.clock))
      modifies this, socket`consumed, socket`clock
      ensures var c := C.Client(open, old(Value()), 0, 0, old(C.Wire(socket.out, socket.consumed, socket.clock)), false);
        var (healthy, c') := C.Check(w, c);
        && ok == healthy && c'.health == Value() && overrun == c'.corrupt
        && c'.wire == C.Wire(socket.out, socket.consumed, socket.clock)
    {
      hide C.DrainStep;
      if !open { return false, false; }
      if state == C.NoRead { return true, false; }
      var buf := StackBuffer(w, socket.clock, C.DRAIN_BUFFER);
      ghost var d := C.Drain(Value(), C.Wire(socket.out, socket.consumed, socket.clock), buf[..], false, 0);
      ghost var goal := C.CheckLoop(w, d, C.DEATH_COUNTDOWN);
      var deathCountdown: nat := C.DEATH_COUNTDOWN;
      while deathCountdown > 0
        invariant C.DrainOk(w, d) && Holds(socket, buf, d) && goal == C.CheckLoop(w, d, deathCountdown)
      {
        if state == C.NoRead { return true, d.overrun; }
        d := Step(w, socket, buf, d);
        deathCountdown := deathCountdown - 1;
      }
      return false, d.overrun;
    }
  }

  class Client {
    const world: C.World
    const socket: Socket
    const health: Health
    var open: bool
    var timeout: int
    var token: int
    ghost var corrupt: bool

    function Value(): C.Client
      reads this, socket, health
    {
      C.Client(open, health.Value(), token, timeout, C.Wire(socket.out, socket.consumed, socket.clock), false)
    }

    /** The value of the client, with what C++ cannot see. */
    ghost function View(): C.Client
      reads this, socket, health
    {
      Value().(corrupt := corrupt)
    }

    ghost predicate Valid()
      reads this, socket, health
    {
      socket.kernel == world.kernel && C.ClientOk(world, View())
    }

    /** A connected client; the token generator starts anywhere. */
    constructor (world: C.World, token: int, timeout: int)
      ensures Valid() && fresh(socket) && fresh(health) && this.world == world
      ensures View() == C.Client(true, C.Health(0, 0, C.NoRead), token, timeout, C.Wire("", 0, 0), false)
    {
      this.world := world;
      var s := new Socket(world.kernel);
      var h := new Health();
      socket, health := s, h;
      open, this.token, this.timeout := true, token, timeout;
      corrupt := false;
    }

    method Close()
      modifies `open
      ensures View() == C.Close(old(View()))
    {
      open := false;
    }

    method BestEffortRead(buf: array<char>, at: nat, size: nat) returns (ok: bool, ret: int, ghost t: Transfer)
      requires Valid() && at + size <= buf.Length
      modifies socket, buf
      ensures Valid() && t == C.Read(world, old(View()).wire, size, timeout)
      ensures ret == t.ret && ok == (ret == size)
      ensures View() == old(View()).(wire := C.AfterRead(world, old(View()).wire, t))
      ensures buf[..] == Stored(old(buf[..]), at, C.Got(world, old(View()).wire, t))
    {
      hide C.Inbound, Run;
      var inbound := C.Inbound(world, socket.out);
      ret, t := socket.BestEffort(Reading, inbound, buf, at, size, timeout, C.MAX_RETRIES);
      ok := ret == size;
      assert t == C.Read(world, old(View()).wire, size, timeout);
    }

    method BestEffortWrite(data: string) returns (ok: bool, ret: int)
      requires Valid()
      modifies socket
      ensures Valid()
      ensures var t := C.Write(world, old(View()).wire, |data|, timeout);
        && ret == t.ret && ok == (ret == |data|)
        && View() == old(View()).(wire := C.AfterWrite(world, old(View()).wire, data, t))
    {
      var buf := new char[|data|](i requires 0 <= i < |data| => data[i]);
      assert buf[..] == data;
      ghost var t;
      ret, t := socket.BestEffort(Writing, C.Inbound(world, socket.out), buf, 0, |data|, timeout, C.MAX_RETRIES);
      C.InboundGrows(world, old(socket.out), data[..t.moved]);
      ok := ret == |data|;
    }

    method WriteRequest(payload: string) returns (ok: bool)
      requires Valid()
      modifies socket, `open
      ensures Valid() && (ok, View()) == C.WriteRequest(world, old(View()), payload)
    {
      hide C.Write, C.AfterWrite, Sent, Header;
      var written;
      ok, written := BestEffortWrite(Header(|Sent(payload)|));
      if !ok {
        if written > 0 { Close(); }
        return;
      }
      ok, written := BestEffortWrite(Sent(payload));
      if !ok { Close(); }
    }

    method ReadContent(buf: array<char>, contentLength: nat) returns (outcome: C.Outcome)
      requires Valid() && HEADER_SIZE + contentLength <= buf.Length
      modifies socket, health, buf
      ensures Valid() && (outcome, View()) == C.ReadContent(world, old(View()), contentLength, old(buf[..]))
    {
      hide C.Read, C.Inbound;
      var ok, some;
      ghost var t;
      ok, some, t := BestEffortRead(buf, HEADER_SIZE, contentLength);
      if !ok {
        health.Set(C.Noted(some), C.ContentReadSome, contentLength);
        return C.NoResult;
      }
      assert buf[HEADER_SIZE..] == C.Got(world, old(View()).wire, t) + old(buf[HEADER_SIZE + contentLength..]);
      return C.Response(buf[HEADER_SIZE..]);
    }

    method ReadResponse() returns (outcome: C.Outcome)
      requires Valid()
      modifies socket, health, `open
      ensures Valid() && (outcome, View()) == C.ReadResponse(world, old(View()))
    {
      hide C.Read, C.Inbound, C.ReadContent;
      var buf := StackBuffer(world, socket.clock, C.CALL_BUFFER);
      ghost var garbage := buf[..];
      var ok, some;
      ghost var t;
      ok, some, t := BestEffortRead(buf, 0, HEADER_SIZE);
      if !ok {
        health.Set(C.Noted(some), C.HeaderReadSome, 0);
        return C.NoResult;
      }
      ghost var got := C.Got(world, old(View()).wire, t);
      assert buf[..] == got + garbage[HEADER_SIZE..];
      assert buf[..][..HEADER_SIZE] == got;
      SameHeader(buf[..], got);
      var contentLength := ContentLength(buf[..]);
      if HEADER_SIZE + contentLength > buf.Length {
        Close();
        return C.NoResult;
      }
      outcome := ReadContent(buf, contentLength);
    }

    /** `_health.check(_socket)`. */
    method CheckHealth() returns (ok: bool)
      requires Valid()
      modifies socket, health, `corrupt
      ensures Valid() && (ok, View()) == C.Check(world, old(View()))
    {
      hide C.CheckLoop, C.Inbound;
      ghost var overrun;
      ok, overrun := health.Check(world, socket, open);
      corrupt := corrupt || overrun;
    }

    method Call(payload: string) returns (outcome: C.Outcome)
      requires Valid()
      modifies this, socket, health
      ensures Valid() && (outcome, View()) == C.Call(world, old(View()), payload)
    {
      hide C.Check, C.WriteRequest, C.ReadResponse, C.Inbound, C.HealthOk;
      var ok := CheckHealth();
      if !ok { return C.NoResult; }
      token := token + 1;
      ok := WriteRequest(payload);
      if !ok { return C.NoResult; }
      outcome := ReadResponse();
    }
  }
}
