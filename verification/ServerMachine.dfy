/** `Server` as an object: its method table, and the loop of `onAccept` over one
    buffer that is never cleared. It computes Server.Serve, so what that is
    proved to do holds of the loop, stale bytes and all. */
module ServerMachine {
  import opened Json
  import opened Parser
  import opened Framing
  import opened BestEffort
  import opened Rpc
  import S = Server
  import CursorParser
  import Locality
  import RpcMachine

  class Server {
    var service: Service

    constructor (service: Service)
      ensures this.service == service.(table := map[])
    {
      this.service := service.(table := map[]);
    }

    /** `bind`. */
    method Bind(name: string, proxy: Proxy)
      modifies this
      ensures service == old(service).(table := old(service).table[name := proxy])
    {
      service := service.(table := service.table[name := proxy]);
    }

    function Wire(socket: Socket): S.Wire
      reads socket
    {
      S.Wire(socket.out, socket.consumed, socket.clock)
    }

    method BestEffortPending(p: S.Peer, socket: Socket) returns (ok: bool)
      requires socket.kernel == p.kernel
      modifies socket`clock
      ensures ok == Pending(p.kernel, p.pending, old(socket.clock))
      ensures Wire(socket) == old(Wire(socket)).(clock := old(socket.clock) + 1)
    {
      PendingIsOneAttempt(p.kernel, p.pending, socket.clock);
      var hook := new Socket(Stub(p.kernel));
      hook.clock := socket.clock;
      var none := new char[1][' '];
      var ret;
      ghost var t;
      ret, t := hook.BestEffort(Writing, "", none, 0, 1, p.pending, 1);
      socket.clock := hook.clock;
      ok := ret == 1;
    }

    method BestEffortRead(p: S.Peer, socket: Socket, buf: array<char>, at: nat, size: nat) returns (ok: bool)
      requires socket.kernel == p.kernel && socket.consumed <= |p.input| && at + size <= buf.Length
      modifies socket, buf
      ensures var t := S.Read(p, old(Wire(socket)), size);
        && Wire(socket) == S.AfterRead(old(Wire(socket)), t) && socket.consumed <= |p.input|
        && ok == (t.ret == size)
        && buf[..] == Stored(old(buf[..]), at, p.input[old(socket.consumed)..socket.consumed])
    {
      hide Run;
      var ret;
      ghost var t;
      ret, t := socket.BestEffort(Reading, p.input, buf, at, size, p.timeout, S.MAX_RETRIES);
      assert t == S.Read(p, old(Wire(socket)), size);
      ok := ret == size;
    }

    method BestEffortWrite(p: S.Peer, socket: Socket, data: string) returns (ok: bool)
      requires socket.kernel == p.kernel && socket.consumed <= |p.input|
      modifies socket
      ensures (ok, Wire(socket)) == S.Write(p, old(Wire(socket)), data)
    {
      hide Run;
      var buf := new char[|data|](i requires 0 <= i < |data| => data[i]);
      assert buf[..] == data;
      var ret;
      ghost var t;
      ret, t := socket.BestEffort(Writing, p.input, buf, 0, |data|, p.timeout, S.MAX_RETRIES);
      ok := ret == |data|;
    }

    /** The next length field, if one is there, fits the buffer. */
    ghost predicate Fits(p: S.Peer, from: nat)
    {
      from + HEADER_SIZE <= |p.input| ==> HEADER_SIZE + ContentLength(p.input[from..from + HEADER_SIZE]) <= S.SERVER_BUFFER
    }

    /** Pending, header, content; the content ends up behind the header. */
    method Receive(p: S.Peer, socket: Socket, buf: array<char>) returns (status: S.Status, length: nat)
      requires socket.kernel == p.kernel && socket.consumed <= |p.input|
      requires buf.Length == S.SERVER_BUFFER && Fits(p, socket.consumed)
      modifies socket, buf
      ensures socket.consumed <= |p.input|
      ensures var (status', content, wire) := S.Receive(p, old(Wire(socket)));
        && status == status' && Wire(socket) == wire
        && (status.Going? ==> HEADER_SIZE + length <= buf.Length && buf[HEADER_SIZE..HEADER_SIZE + length] == content)
    {
      hide Run, ContentLength;
      length := 0;
      var ok := BestEffortPending(p, socket);
      if !ok { return S.Idle, 0; }
      ok := BestEffortRead(p, socket, buf, 0, HEADER_SIZE);
      if !ok { return S.ReadFailed, 0; }
      ghost var from := socket.consumed;
      ghost var header := p.input[old(socket.consumed)..from];
      assert buf[..][..HEADER_SIZE] == header;
      SameHeader(buf[..], header);
      length := ContentLength(buf[..]);
      ghost var before := buf[..];
      ok := BestEffortRead(p, socket, buf, HEADER_SIZE, length);
      if !ok { return S.ReadFailed, length; }
      assert buf[..][HEADER_SIZE..HEADER_SIZE + length] == p.input[from..socket.consumed];
      status := S.Going;
    }

    /** `decode`: parse what is behind the header, wherever that ends. It gives what
        the content alone gives whenever that is a container. */
    method Decode(buf: array<char>, ghost content: string) returns (r: Outcome<Value>)
      requires HEADER_SIZE + |content| <= buf.Length && buf[HEADER_SIZE..HEADER_SIZE + |content|] == content
      ensures r == ParseValue(buf[HEADER_SIZE..], 0)
      ensures var alone := ParseValue(content, 0);
        alone.Ok? && (alone.v.Object? || alone.v.Array?) ==> r == alone
    {
      hide ParseValue;
      var cursor := new CursorParser.Cursor(buf[HEADER_SIZE..]);
      r := cursor.ParseValue();
      ghost var alone := ParseValue(content, 0);
      if alone.Ok? && (alone.v.Object? || alone.v.Array?) {
        ghost var stale := buf[HEADER_SIZE + |content|..];
        assert buf[HEADER_SIZE..] == content + stale;
        assert content + "" == content;
        Locality.DecodeIgnoresStaleBytes(content, "", stale);
      }
    }

    method Send(p: S.Peer, socket: Socket, payload: string) returns (ok: bool)
      requires socket.kernel == p.kernel && socket.consumed <= |p.input|
      modifies socket
      ensures (ok, Wire(socket)) == S.Send(p, old(Wire(socket)), payload)
    {
      hide S.Write, Sent, Header;
      ok := BestEffortWrite(p, socket, Header(|Sent(payload)|));
      if ok { ok := BestEffortWrite(p, socket, Sent(payload)); }
    }

    /** Handle one decoded request: the text to send back, unless it is dropped. */
    method Answer(request: Value, ghost content: string) returns (reply: Option<string>)
      requires S.RequestText(content) && request == ParseValue(content, 0).v
      ensures reply == S.Reply(service, content)
    {
      hide ParseValue, Dump, NetCall, Respond;
      if !service.acceptsRequest(request) { return None; }
      var id := Get(request.members, "id").value.n;
      var response := new RpcMachine.Document.Empty(id);
      var answer := RpcMachine.Dispatch(service, Get(request.members, "method").value.raw, Params(request));
      response.Fill(answer);
      if !service.acceptsResponse(Object(response.members)) { return None; }
      ResponsePlain(id, answer);
      var text := response.Dump();
      return Some(text);
    }

    method Round(p: S.Peer, socket: Socket, buf: array<char>) returns (status: S.Status)
      requires socket.kernel == p.kernel && buf.Length == S.SERVER_BUFFER
      requires S.PeerOk(p) && S.Caught(service, p, Wire(socket))
      modifies socket, buf
      ensures socket.consumed <= |p.input|
      ensures (status, Wire(socket)) == S.Round(service, p, old(Wire(socket)))
      ensures status.Going? ==> old(socket.consumed) < socket.consumed && S.Caught(service, p, Wire(socket))
    {
      hide S.PeerOk, S.RequestText, S.Reply, S.Receive, S.Send, Frames, Rest, S.Answers, ContentLength;
      ghost var wire := Wire(socket);
      S.RoundRefines(service, p, wire);
      if socket.consumed + HEADER_SIZE <= |p.input| { S.NextFits(p, socket.consumed); }
      var length;
      status, length := Receive(p, socket, buf);
      if !status.Going? { return; }
      ghost var content := S.Receive(p, wire).1;
      S.RequestIsObject(content);
      var decoded := Decode(buf, content);
      var reply := Answer(decoded.v, content);
      if reply.None? { return; }
      var ok := Send(p, socket, reply.value);
      if !ok { status := S.WriteFailed; }
    }

    /** `onAccept`, from a connection just accepted or between any two rounds. */
    method OnAccept(p: S.Peer, socket: Socket) returns (status: S.Status)
      requires socket.kernel == p.kernel && socket.consumed <= |p.input|
      requires S.PeerOk(p) && S.Caught(service, p, Wire(socket))
      modifies socket
      ensures (status, Wire(socket)) == S.Serve(service, p, old(Wire(socket)))
    {
      hide S.PeerOk, S.Round, S.Caught;
      var buf := new char[S.SERVER_BUFFER];
      ghost var goal := S.Serve(service, p, Wire(socket));
      while true
        invariant socket.consumed <= |p.input| && S.Caught(service, p, Wire(socket))
        invariant goal == S.Serve(service, p, Wire(socket))
        decreases |p.input| - socket.consumed
      {
        status := Round(p, socket, buf);
        if !status.Going? { break; }
      }
    }
  }
}
