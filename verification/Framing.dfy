/** Length framing (trpc/detail/Codec.h): four big-endian bytes, then the content. */
module Framing {

  const HEADER_SIZE := 4
  const HEADER_LIMIT := 0x1_0000_0000

  /** `htonl`, as the four bytes that go on the wire. */
  function Header(n: nat): (h: string)
    ensures |h| == HEADER_SIZE
  {
    [(n / 0x100_0000 % 0x100) as char, (n / 0x1_0000 % 0x100) as char, (n / 0x100 % 0x100) as char, (n % 0x100) as char]
  }

  function Byte(c: char): nat { c as int % 0x100 }

  /** `contentLength`: `ntohl` of the first four bytes of the buffer. */
  function ContentLength(buf: string): (n: nat)
    requires HEADER_SIZE <= |buf|
    ensures n < HEADER_LIMIT
  {
    ((Byte(buf[0]) * 0x100 + Byte(buf[1])) * 0x100 + Byte(buf[2])) * 0x100 + Byte(buf[3])
  }

  lemma FourBytes(n: nat)
    requires n < HEADER_LIMIT
    ensures n / 0x100_0000 < 0x100 && n / 0x100_0000 % 0x100 == n / 0x100_0000
    ensures ((n / 0x100_0000 * 0x100 + n / 0x1_0000 % 0x100) * 0x100 + n / 0x100 % 0x100) * 0x100 + n % 0x100 == n
  {
    var a, b, c := n / 0x100, n / 0x1_0000, n / 0x100_0000;
    assert b == a / 0x100 && c == b / 0x100 && c < 0x100;
  }

  lemma HeaderRoundTrip(n: nat, rest: string)
    requires n < HEADER_LIMIT
    ensures ContentLength(Header(n) + rest) == n
  {
    var h := Header(n);
    FourBytes(n);
    assert Byte(h[0]) == n / 0x100_0000 && Byte(h[1]) == n / 0x1_0000 % 0x100;
    assert Byte(h[2]) == n / 0x100 % 0x100 && Byte(h[3]) == n % 0x100;
  }

  /** What goes out for a payload: its length truncated to 32 bits, and that
      many of its bytes. */
  function Sent(payload: string): (content: string)
    ensures |content| < HEADER_LIMIT
  {
    payload[..|payload| % HEADER_LIMIT]
  }

  function Frame(payload: string): string { Header(|Sent(payload)|) + Sent(payload) }

  // ------------------------------------------------------- a stream of frames

  /** The length field depends on four bytes only. */
  lemma SameHeader(a: string, b: string)
    requires HEADER_SIZE <= |a| && HEADER_SIZE <= |b| && a[..HEADER_SIZE] == b[..HEADER_SIZE]
    ensures ContentLength(a) == ContentLength(b)
  {
    assert forall i | 0 <= i < HEADER_SIZE :: a[i] == a[..HEADER_SIZE][i] && b[i] == b[..HEADER_SIZE][i];
  }

  /** Contents of the whole frames at the front of a stream. */
  function Frames(b: string): seq<string>
    decreases |b|
  {
    if |b| < HEADER_SIZE then []
    else
      var n := ContentLength(b);
      if |b| < HEADER_SIZE + n then []
      else [b[HEADER_SIZE..HEADER_SIZE + n]] + Frames(b[HEADER_SIZE + n..])
  }

  /** What is left behind them. */
  function Rest(b: string): string
    decreases |b|
  {
    if |b| < HEADER_SIZE then b
    else
      var n := ContentLength(b);
      if |b| < HEADER_SIZE + n then b else Rest(b[HEADER_SIZE + n..])
  }

  /** The stream is whole frames, nothing more. */
  predicate Aligned(b: string) { Rest(b) == "" }

  lemma {:induction false} FramesAppend(a: string, b: string)
    ensures Frames(a + b) == Frames(a) + Frames(Rest(a) + b)
    ensures Rest(a + b) == Rest(Rest(a) + b)
    decreases |a|
  {
    hide ContentLength;
    if HEADER_SIZE <= |a| && HEADER_SIZE + ContentLength(a) <= |a| {
      var k := HEADER_SIZE + ContentLength(a);
      assert (a + b)[..HEADER_SIZE] == a[..HEADER_SIZE];
      SameHeader(a, a + b);
      assert (a + b)[k..] == a[k..] + b;
      assert (a + b)[HEADER_SIZE..k] == a[HEADER_SIZE..k];
      FramesAppend(a[k..], b);
    }
  }

  lemma FrameLength(payload: string, k: nat)
    requires k <= |Frame(payload)|
    ensures |Frame(payload)| == HEADER_SIZE + |Sent(payload)|
    ensures HEADER_SIZE <= k ==> ContentLength(Frame(payload)[..k]) == |Sent(payload)|
  {
    hide ContentLength, Header;
    HeaderRoundTrip(|Sent(payload)|, Sent(payload));
    if HEADER_SIZE <= k {
      assert Frame(payload)[..k][..HEADER_SIZE] == Frame(payload)[..HEADER_SIZE];
      SameHeader(Frame(payload), Frame(payload)[..k]);
    }
  }

  lemma OneFrame(payload: string)
    ensures Frames(Frame(payload)) == [Sent(payload)] && Aligned(Frame(payload))
  {
    var f := Frame(payload);
    FrameLength(payload, |f|);
    assert f[..|f|] == f;
    assert f[HEADER_SIZE..HEADER_SIZE + |Sent(payload)|] == Sent(payload);
    assert f[HEADER_SIZE + |Sent(payload)|..] == "";
  }

  /** A whole frame behind whole frames adds exactly its content. */
  lemma FrameAppended(out: string, payload: string)
    requires Aligned(out)
    ensures Aligned(out + Frame(payload))
    ensures Frames(out + Frame(payload)) == Frames(out) + [Sent(payload)]
  {
    hide Frames, Rest, Frame, Sent;
    FramesAppend(out, Frame(payload));
    assert "" + Frame(payload) == Frame(payload);
    OneFrame(payload);
  }

  /** A cut frame behind whole frames adds nothing, and shows. */
  lemma PartAppended(out: string, payload: string, k: nat)
    requires Aligned(out) && k < |Frame(payload)|
    ensures Frames(out + Frame(payload)[..k]) == Frames(out)
    ensures Rest(out + Frame(payload)[..k]) == Frame(payload)[..k]
  {
    hide ContentLength, Header, Sent;
    var part := Frame(payload)[..k];
    FramesAppend(out, part);
    assert "" + part == part;
    FrameLength(payload, k);
    assert Frames(part) == [];
    assert Frames(out) + [] == Frames(out);
  }

  /** Payloads, framed and glued together. */
  function Stream(payloads: seq<string>): string
  {
    if payloads == [] then "" else Stream(payloads[..|payloads| - 1]) + Frame(payloads[|payloads| - 1])
  }

  /** Framing loses nothing: the stream splits into the payloads it was made of. */
  lemma {:induction false} StreamFrames(payloads: seq<string>)
    requires forall p | p in payloads :: |p| < HEADER_LIMIT
    ensures Frames(Stream(payloads)) == payloads && Aligned(Stream(payloads))
  {
    hide Frame, Sent, ContentLength;
    if payloads != [] {
      var n := |payloads| - 1;
      StreamFrames(payloads[..n]);
      FrameAppended(Stream(payloads[..n]), payloads[n]);
      SentWhole(payloads[n]);
      assert payloads == payloads[..n] + [payloads[n]];
    }
  }

  lemma SentWhole(payload: string)
    requires |payload| < HEADER_LIMIT
    ensures Sent(payload) == payload
  {
  }
}
