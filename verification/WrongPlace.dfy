/** Exactly when a check can pass in the wrong place: what the bytes of a header, and
    how many of them were read before, let a kernel and a stale buffer do. */
module WrongPlace {
  import opened Framing
  import opened BestEffort
  import opened Connection
  import opened Alignment
  import opened Overrun
  import Runs

  /** A header not drained yet, of an outstanding reply of `n` bytes. */
  ghost predicate Partial(w: World, d: Drain, n: nat)
  {
    var requests := Frames(d.wire.out);
    && DrainOk(w, d) && ReadAligned(w, d.wire, d.health) && d.health.state.HeaderReadSome? && !d.overrun
    && requests != [] && Outstanding(w, requests).Some? && |Sent(Outstanding(w, requests).value)| == n
  }

  ghost predicate PassesWrong(w: World, d: Drain, countdown: nat)
    requires DrainOk(w, d)
  {
    var (healthy, e) := CheckLoop(w, d, countdown);
    healthy && !ReadAligned(w, e.wire, e.health)
  }

  function At(header: string, i: nat): nat
    requires i < |header|
  {
    Byte(header[i])
  }

  /** The header of 2^24 bytes or more that looks like one of 4096 or less when its
      first byte is missing. */
  predicate HugeLooksSmall(header: string)
    requires |header| == HEADER_SIZE
  {
    At(header, 0) != 0 && At(header, 1) == 0 && At(header, 2) == 0 && At(header, 3) <= 16
  }

  /** With `some` bytes read before, the rest of this header can be drained to a wrong
      length that lies within the reply. */
  predicate CanMislead(header: string, some: nat)
    requires |header| == HEADER_SIZE
  {
    || (At(header, 3) == 0 && (some > 0 || At(header, 1) == 0 || At(header, 2) == 0))
    || (some <= 1 && HugeLooksSmall(header))
  }

  // ----------------------------------------------------------- what a step does

  /** The bytes of a header lie where the client stands. */
  lemma PieceOfHeader(w: World, d: Drain, n: nat, m: nat)
    requires Partial(w, d, n) && m <= HEADER_SIZE - d.health.some
    ensures var all := Inbound(w, d.wire.out);
      && d.wire.consumed + m <= |all|
      && all[d.wire.consumed..d.wire.consumed + m] == Header(n)[d.health.some..d.health.some + m]
    ensures |Inbound(w, d.wire.out)| == Before(w, Frames(d.wire.out)) + HEADER_SIZE + n
  {
    hide Replies, ContentLength, Frames, Sent, Header;
    var requests, some := Frames(d.wire.out), d.health.some;
    LastReply(w, requests);
    var all, from := Replies(w, requests), Before(w, requests);
    assert all[from..] == Header(n) + Sent(Outstanding(w, requests).value);
    TailOfHeader(all, from, some, Header(n), Sent(Outstanding(w, requests).value));
    assert all[from + some..from + HEADER_SIZE][..m] == all[from + some..from + some + m];
  }

  /** A piece that does not complete the header. */
  lemma PartStep(w: World, d: Drain, n: nat, m: nat)
    requires Partial(w, d, n) && DrainIo(w, d, HEADER_SIZE - d.health.some) == Moved(m) && m < HEADER_SIZE - d.health.some
    ensures var e := DrainStep(w, d);
      && Partial(w, e, n) && e.health.some == d.health.some + m && m > 0
      && e.buf == Stored(d.buf, 0, Header(n)[d.health.some..d.health.some + m])
      && e.wire.out == d.wire.out && e.wire.clock == d.wire.clock + 1
  {
    hide Replies, ContentLength, Frames, Sent, Header, Inbound;
    PieceOfHeader(w, d, n, m);
  }

  /** The piece that completes it. */
  lemma LastStep(w: World, d: Drain, n: nat)
    requires Partial(w, d, n)
    requires DrainIo(w, d, HEADER_SIZE - d.health.some) == Moved(HEADER_SIZE - d.health.some)
    ensures var e := DrainStep(w, d); var length := DrainedLength(Header(n), d.health.some, d.buf);
      && e.wire.out == d.wire.out && e.wire.clock == d.wire.clock + 1 && !e.overrun
      && if length > DRAIN_BUFFER then e.health.state.Undefined?
         else e.health == Health(0, length, ContentReadSome)
              && e.wire.consumed == Before(w, Frames(d.wire.out)) + HEADER_SIZE
  {
    hide Replies, ContentLength, Frames, Sent, Header, Inbound;
    SplitDrain(w, d);
  }

  // ------------------------------------------------------------ only if: a content

  /** Draining by a length, from the start of a content of `n` bytes. */
  ghost predicate ByLength(w: World, e: Drain, n: nat, length: nat)
  {
    var requests := Frames(e.wire.out);
    && DrainOk(w, e) && e.health.state.ContentReadSome? && e.health.content == length
    && requests != [] && e.wire.consumed == Before(w, requests) + HEADER_SIZE + e.health.some
    && |Inbound(w, e.wire.out)| == Before(w, requests) + HEADER_SIZE + n
  }

  /** A check that passes then has drained exactly that much, and some. */
  lemma {:induction false} ByLengthPasses(w: World, e: Drain, n: nat, length: nat, countdown: nat)
    requires ByLength(w, e, n, length) && CheckLoop(w, e, countdown).0
    ensures e.health.some < length <= n && countdown >= 2
    ensures var f := CheckLoop(w, e, countdown).1;
      f.wire.out == e.wire.out && f.wire.consumed == Before(w, Frames(e.wire.out)) + HEADER_SIZE + length
    decreases countdown
  {
    hide Replies, Frames;
    if countdown > 0 {
      var f := DrainStep(w, e);
      match f.health.state
      case Undefined => UndefinedLoop(w, f, countdown - 1);
      case ContentReadSome => ByLengthPasses(w, f, n, length, countdown - 1);
      case NoRead => assert countdown > 1;
      case HeaderReadSome =>
    }
  }

  // ---------------------------------------------------------- only if: the bytes

  lemma DrainedIs(header: string, some: nat, buf: string)
    requires |header| == HEADER_SIZE && some < HEADER_SIZE && |buf| == DRAIN_BUFFER
    ensures var b := Stored(buf, 0, header[some..]);
      |b| == DRAIN_BUFFER && forall i | 0 <= i < HEADER_SIZE :: b[i] == if i < HEADER_SIZE - some then header[some + i] else buf[i]
  {
  }

  /** What a wrong length within the reply says of the header. */
  lemma WrongLengthNeeds(header: string, some: nat, buf: string)
    requires |header| == HEADER_SIZE && some < HEADER_SIZE && |buf| == DRAIN_BUFFER
    requires 0 < DrainedLength(header, some, buf) < ContentLength(header) && DrainedLength(header, some, buf) <= DRAIN_BUFFER
    ensures some > 0
    ensures some == 1 ==> HugeLooksSmall(header)
    ensures some == 2 ==> At(header, 2) == 0 && At(header, 3) == 0
    ensures some == 3 ==> At(header, 3) == 0 && Byte(buf[1]) == 0
  {
    DrainedIs(header, some, buf);
  }

  /** What a step that completes the header says of it. */
  lemma LastStepNeeds(w: World, d: Drain, n: nat, countdown: nat)
    requires Partial(w, d, n) && countdown > 0 && PassesWrong(w, d, countdown) && n < HEADER_LIMIT
    requires DrainIo(w, d, HEADER_SIZE - d.health.some) == Moved(HEADER_SIZE - d.health.some)
    ensures var length := DrainedLength(Header(n), d.health.some, d.buf);
      0 < length < n && length <= DRAIN_BUFFER && countdown >= 3
  {
    hide Replies, ContentLength, Frames, Sent, Header, DrainedLength;
    LastStep(w, d, n);
    PieceOfHeader(w, d, n, 0);
    var e, length := DrainStep(w, d), DrainedLength(Header(n), d.health.some, d.buf);
    if e.health.state.Undefined? {
      UndefinedLoop(w, e, countdown - 1);
    } else {
      ByLengthPasses(w, e, n, length, countdown - 1);
    }
  }

  // ------------------------------------------------------------- only if: the loop

  lemma {:induction false} TooShort(w: World, d: Drain, countdown: nat)
    requires DrainOk(w, d) && d.health.state.HeaderReadSome? && countdown <= 2
    ensures !CheckLoop(w, d, countdown).0
    decreases countdown
  {
    hide Inbound, ContentLength;
    if countdown > 0 {
      var e := DrainStep(w, d);
      if e.health.state.HeaderReadSome? { TooShort(w, e, countdown - 1); }
    }
  }

  lemma NothingRead(w: World, d: Drain, countdown: nat)
    requires DrainOk(w, d) && d.health.state.HeaderReadSome? && countdown > 0
    requires !DrainIo(w, d, HEADER_SIZE - d.health.some).Moved?
    ensures !CheckLoop(w, d, countdown).0
  {
    hide Inbound, ContentLength;
    UndefinedLoop(w, DrainStep(w, d), countdown - 1);
  }

  /** With a byte read before. */
  lemma {:induction false} SomeReadNeeds(w: World, d: Drain, n: nat, countdown: nat)
    requires Partial(w, d, n) && d.health.some > 0 && PassesWrong(w, d, countdown) && n < HEADER_LIMIT
    ensures n > 0 && (At(Header(n), 3) == 0 || (d.health.some == 1 && HugeLooksSmall(Header(n))))
    decreases countdown
  {
    hide DrainStep, Partial, At, HugeLooksSmall, ReadAligned, DrainedLength;
    PartialIs(w, d, n);
    var io := DrainIo(w, d, HEADER_SIZE - d.health.some);
    if countdown == 0 {
    } else if !io.Moved? {
      NothingRead(w, d, countdown);
    } else if io.n < HEADER_SIZE - d.health.some {
      PartStep(w, d, n, io.n);
      SomeReadNeeds(w, DrainStep(w, d), n, countdown - 1);
    } else {
      LastStepNeeds(w, d, n, countdown);
      HeaderIs(n);
      WrongLengthNeeds(Header(n), d.health.some, d.buf);
    }
  }

  lemma PartialIs(w: World, d: Drain, n: nat)
    requires Partial(w, d, n)
    ensures DrainOk(w, d) && d.health.state.HeaderReadSome? && 0 <= d.health.some < HEADER_SIZE && |d.buf| == DRAIN_BUFFER
  {
  }

  lemma HeaderIs(n: nat)
    requires n < HEADER_LIMIT
    ensures ContentLength(Header(n)) == n
  {
    hide ContentLength, Header;
    HeaderRoundTrip(n, "");
    assert Header(n) + "" == Header(n);
  }

  /** Two or three bytes in, with a second byte of the buffer that is not zero. */
  lemma {:induction false} GuardedNever(w: World, d: Drain, n: nat, countdown: nat)
    requires Partial(w, d, n) && d.health.some >= 2 && n < HEADER_LIMIT
    requires Byte(d.buf[1]) != 0 && At(Header(n), 2) != 0
    ensures !PassesWrong(w, d, countdown)
    decreases countdown
  {
    hide DrainStep, Partial, At, Byte, ReadAligned, DrainedLength, Header, ContentLength;
    PartialIs(w, d, n);
    var io := DrainIo(w, d, HEADER_SIZE - d.health.some);
    if countdown > 0 && PassesWrong(w, d, countdown) {
      if !io.Moved? {
        NothingRead(w, d, countdown);
      } else if io.n < HEADER_SIZE - d.health.some {
        PartStep(w, d, n, io.n);
        assert DrainStep(w, d).buf[1] == d.buf[1];
        PartialIs(w, DrainStep(w, d), n);
        GuardedNever(w, DrainStep(w, d), n, countdown - 1);
        PassesOn(w, d, countdown);
      } else {
        LastStepNeeds(w, d, n, countdown);
        HeaderIs(n);
        WrongLengthNeeds(Header(n), d.health.some, d.buf);
      }
    }
  }

  lemma PassesOn(w: World, d: Drain, countdown: nat)
    requires DrainOk(w, d) && countdown > 0 && !d.health.state.NoRead?
    ensures PassesWrong(w, d, countdown) <==> PassesWrong(w, DrainStep(w, d), countdown - 1)
  {
    hide DrainStep, ReadAligned;
  }

  /** One byte in, with a check's countdown at four or less. */
  lemma OneInNever(w: World, d: Drain, n: nat, countdown: nat)
    requires Partial(w, d, n) && d.health.some == 1 && n < HEADER_LIMIT && countdown <= 4
    requires At(Header(n), 1) != 0 && At(Header(n), 2) != 0
    ensures !PassesWrong(w, d, countdown)
  {
    hide DrainStep, Partial, Byte, ReadAligned, DrainedLength, Header, ContentLength;
    PartialIs(w, d, n);
    var io := DrainIo(w, d, HEADER_SIZE - 1);
    if countdown > 0 && PassesWrong(w, d, countdown) {
      PassesOn(w, d, countdown);
      if !io.Moved? {
        NothingRead(w, d, countdown);
      } else if io.n < HEADER_SIZE - 1 {
        PartStep(w, d, n, io.n);
        var e := DrainStep(w, d);
        PartialIs(w, e, n);
        if io.n == 2 {
          assert e.buf[1] == Header(n)[2];
          GuardedNever(w, e, n, countdown - 1);
        } else {
          TwoInNever(w, e, n, countdown - 1);
        }
      } else {
        LastStepNeeds(w, d, n, countdown);
        HeaderIs(n);
        WrongLengthNeeds(Header(n), 1, d.buf);
      }
    }
  }

  lemma TwoInNever(w: World, d: Drain, n: nat, countdown: nat)
    requires Partial(w, d, n) && d.health.some == 2 && n < HEADER_LIMIT && countdown <= 3 && At(Header(n), 2) != 0
    ensures !PassesWrong(w, d, countdown)
  {
    hide DrainStep, Partial, ReadAligned, DrainedLength, Header, ContentLength;
    PartialIs(w, d, n);
    var io := DrainIo(w, d, HEADER_SIZE - 2);
    if countdown > 0 && PassesWrong(w, d, countdown) {
      PassesOn(w, d, countdown);
      if !io.Moved? {
        NothingRead(w, d, countdown);
      } else if io.n < HEADER_SIZE - 2 {
        PartStep(w, d, n, io.n);
        PartialIs(w, DrainStep(w, d), n);
        TooShort(w, DrainStep(w, d), countdown - 1);
      } else {
        LastStepNeeds(w, d, n, countdown);
        HeaderIs(n);
        WrongLengthNeeds(Header(n), 2, d.buf);
      }
    }
  }

  /** With no byte read before, and the whole countdown. */
  lemma NoneReadNeeds(w: World, d: Drain, n: nat)
    requires Partial(w, d, n) && d.health.some == 0 && PassesWrong(w, d, DEATH_COUNTDOWN) && n < HEADER_LIMIT
    ensures n > 0 && CanMislead(Header(n), 0)
  {
    hide DrainStep, Partial, ReadAligned, DrainedLength, Header, ContentLength, HugeLooksSmall;
    PartialIs(w, d, n);
    PassesOn(w, d, DEATH_COUNTDOWN);
    var io := DrainIo(w, d, HEADER_SIZE);
    if !io.Moved? {
      NothingRead(w, d, DEATH_COUNTDOWN);
    } else if io.n == HEADER_SIZE {
      LastStepNeeds(w, d, n, DEATH_COUNTDOWN);
      HeaderIs(n);
      WrongLengthNeeds(Header(n), 0, d.buf);
    } else {
      PartStep(w, d, n, io.n);
      var e := DrainStep(w, d);
      PartialIs(w, e, n);
      SomeReadNeeds(w, e, n, DEATH_COUNTDOWN - 1);
      if At(Header(n), 1) != 0 && At(Header(n), 2) != 0 {
        if io.n == 1 {
          OneInNever(w, e, n, DEATH_COUNTDOWN - 1);
        } else {
          assert e.buf[1] == Header(n)[1];
          GuardedNever(w, e, n, DEATH_COUNTDOWN - 1);
        }
      }
    }
  }

  // ------------------------------------------------------------------- if

  /** Enough moves in one attempt. */
  predicate Moves(w: World, now: nat, m: nat)
  {
    w.kernel(now).io.Moved? && w.kernel(now).io.n >= m
  }

  /** A content drained whole by a wrong length within it. */
  lemma ContentPassesWrong(w: World, e: Drain, n: nat, length: nat, countdown: nat)
    requires ByLength(w, e, n, length) && e.health.some == 0 && 0 < length < n && countdown >= 2
    requires Moves(w, e.wire.clock, length)
    ensures PassesWrong(w, e, countdown)
  {
    hide Replies, Frames;
    var f := DrainStep(w, e);
    assert f.health.state.NoRead? && CheckLoop(w, f, countdown - 1) == (true, f);
    PassesOn(w, e, countdown);
  }

  /** So does a header completed to such a length. */
  lemma LastPassesWrong(w: World, d: Drain, n: nat, countdown: nat)
    requires Partial(w, d, n) && countdown >= 3
    requires var length := DrainedLength(Header(n), d.health.some, d.buf);
      0 < length < n && length <= DRAIN_BUFFER && Moves(w, d.wire.clock + 1, length)
    requires Moves(w, d.wire.clock, HEADER_SIZE - d.health.some)
    ensures PassesWrong(w, d, countdown)
  {
    hide DrainStep, Partial, ReadAligned, DrainedLength, Header, ContentLength, Replies, Frames;
    PartialIs(w, d, n);
    PieceOfHeader(w, d, n, HEADER_SIZE - d.health.some);
    LastStep(w, d, n);
    SameFrames(w, d, n);
    ContentPassesWrong(w, DrainStep(w, d), n, DrainedLength(Header(n), d.health.some, d.buf), countdown - 1);
    PassesOn(w, d, countdown);
  }

  lemma SameFrames(w: World, d: Drain, n: nat)
    requires Partial(w, d, n)
    ensures DrainOk(w, DrainStep(w, d)) && Frames(d.wire.out) != []
  {
  }

  /** A piece of `m` bytes is taken when that many are offered. */
  lemma Offered(w: World, d: Drain, n: nat, m: nat)
    requires Partial(w, d, n) && 0 < m < HEADER_SIZE - d.health.some && w.kernel(d.wire.clock).io == Moved(m)
    ensures DrainIo(w, d, HEADER_SIZE - d.health.some) == Moved(m)
  {
    hide Header, Replies, Frames, Inbound;
    PieceOfHeader(w, d, n, m);
  }

  /** One byte in front of these makes a length of one. */
  predicate OneBehind(buf: string)
  {
    |buf| == DRAIN_BUFFER && Byte(buf[1]) == 0 && Byte(buf[2]) == 0 && Byte(buf[3]) == 1
  }

  lemma MultipleOf256(n: nat)
    requires n < HEADER_LIMIT && n > 0 && At(Header(n), 3) == 0
    ensures n >= 0x100
  {
  }

  lemma LastByteAlone(header: string, buf: string)
    requires |header| == HEADER_SIZE && At(header, 3) == 0 && OneBehind(buf)
    ensures DrainedLength(header, 3, buf) == 1
  {
    DrainedIs(header, 3, buf);
  }

  /** The last byte of the header is zero, and bytes come one by one. */
  lemma {:induction false} OneByOne(w: World, d: Drain, n: nat, countdown: nat)
    requires Partial(w, d, n) && d.health.some > 0 && OneBehind(d.buf) && At(Header(n), 3) == 0 && 0 < n < HEADER_LIMIT
    requires countdown >= HEADER_SIZE - d.health.some + 2
    requires forall t: nat | d.wire.clock <= t :: w.kernel(t).io == Moved(1)
    ensures PassesWrong(w, d, countdown)
    decreases HEADER_SIZE - d.health.some
  {
    hide DrainStep, Partial, ReadAligned, DrainedLength, Header, ContentLength, At, Byte;
    PartialIs(w, d, n);
    if d.health.some < 3 {
      Offered(w, d, n, 1);
      PartStep(w, d, n, 1);
      var e := DrainStep(w, d);
      assert e.buf[1] == d.buf[1] && e.buf[2] == d.buf[2] && e.buf[3] == d.buf[3];
      OneByOne(w, e, n, countdown - 1);
      PassesOn(w, d, countdown);
    } else {
      LastByteAlone(Header(n), d.buf);
      MultipleOf256(n);
      LastPassesWrong(w, d, n, countdown);
    }
  }

  /** Nothing read before, and the second byte of the header zero too: two bytes, then
      one by one. */
  lemma TwoThenOnes(w: World, d: Drain, n: nat)
    requires Partial(w, d, n) && d.health.some == 0 && OneBehind(d.buf) && 0 < n < HEADER_LIMIT
    requires At(Header(n), 3) == 0 && At(Header(n), 1) == 0
    requires w.kernel(d.wire.clock).io == Moved(2) && forall t: nat | d.wire.clock < t :: w.kernel(t).io == Moved(1)
    ensures PassesWrong(w, d, DEATH_COUNTDOWN)
  {
    hide DrainStep, Partial, ReadAligned, DrainedLength, Header, ContentLength;
    PartialIs(w, d, n);
    Offered(w, d, n, 2);
    PartStep(w, d, n, 2);
    var e := DrainStep(w, d);
    assert e.buf[1] == Header(n)[1] && e.buf[2] == d.buf[2] && e.buf[3] == d.buf[3];
    PartialIs(w, e, n);
    OneByOne(w, e, n, DEATH_COUNTDOWN - 1);
    PassesOn(w, d, DEATH_COUNTDOWN);
  }

  /** Or the third byte zero: one, one, two. */
  lemma OnesThenTwo(w: World, d: Drain, n: nat)
    requires Partial(w, d, n) && d.health.some == 0 && OneBehind(d.buf) && 0 < n < HEADER_LIMIT
    requires At(Header(n), 3) == 0 && At(Header(n), 2) == 0
    requires w.kernel(d.wire.clock).io == Moved(1) && w.kernel(d.wire.clock + 1).io == Moved(1)
    requires w.kernel(d.wire.clock + 2).io == Moved(2) && w.kernel(d.wire.clock + 3).io == Moved(1)
    ensures PassesWrong(w, d, DEATH_COUNTDOWN)
  {
    hide DrainStep, Partial, ReadAligned, DrainedLength, Header, ContentLength;
    PartialIs(w, d, n);
    Offered(w, d, n, 1);
    PartStep(w, d, n, 1);
    var e := DrainStep(w, d);
    PartialIs(w, e, n);
    Offered(w, e, n, 1);
    PartStep(w, e, n, 1);
    var f := DrainStep(w, e);
    PartialIs(w, f, n);
    assert f.buf[2] == d.buf[2] && f.buf[3] == d.buf[3];
    TwoZeros(Header(n), f.buf);
    MultipleOf256(n);
    LastPassesWrong(w, f, n, DEATH_COUNTDOWN - 2);
    PassesOn(w, e, DEATH_COUNTDOWN - 1);
    PassesOn(w, d, DEATH_COUNTDOWN);
  }

  lemma TwoZeros(header: string, buf: string)
    requires |header| == HEADER_SIZE && At(header, 3) == 0 && At(header, 2) == 0
    requires |buf| == DRAIN_BUFFER && Byte(buf[2]) == 0 && Byte(buf[3]) == 1
    ensures DrainedLength(header, 2, buf) == 1
  {
    DrainedIs(header, 2, buf);
  }

  /** A huge reply whose header looks small without its first byte. */
  lemma HugePassesWrong(w: World, d: Drain, n: nat, countdown: nat)
    requires Partial(w, d, n) && d.health.some == 1 && Byte(d.buf[3]) == 0 && n < HEADER_LIMIT && countdown >= 3
    requires HugeLooksSmall(Header(n)) && At(Header(n), 3) != 0
    requires Moves(w, d.wire.clock, 3) && Moves(w, d.wire.clock + 1, DRAIN_BUFFER)
    ensures PassesWrong(w, d, countdown)
  {
    PartialIs(w, d, n);
    HugeLength(Header(n), d.buf);
    HeaderIs(n);
    hide DrainedLength, Partial, DrainStep, HugeLooksSmall, ContentLength, Header;
    LastPassesWrong(w, d, n, countdown);
  }

  lemma HugeLength(header: string, buf: string)
    requires |header| == HEADER_SIZE && |buf| == DRAIN_BUFFER && Byte(buf[3]) == 0
    requires HugeLooksSmall(header) && At(header, 3) != 0
    ensures 0 < DrainedLength(header, 1, buf) <= DRAIN_BUFFER && DrainedLength(header, 1, buf) < ContentLength(header)
  {
    DrainedIs(header, 1, buf);
  }

  /** Nothing read before: one byte, then the rest. */
  lemma OneThenHuge(w: World, d: Drain, n: nat)
    requires Partial(w, d, n) && d.health.some == 0 && Byte(d.buf[3]) == 0 && n < HEADER_LIMIT
    requires HugeLooksSmall(Header(n)) && At(Header(n), 3) != 0
    requires w.kernel(d.wire.clock).io == Moved(1)
    requires Moves(w, d.wire.clock + 1, DRAIN_BUFFER) && Moves(w, d.wire.clock + 2, DRAIN_BUFFER)
    ensures PassesWrong(w, d, DEATH_COUNTDOWN)
  {
    hide DrainStep, Partial, ReadAligned, DrainedLength, Header, ContentLength, HugeLooksSmall, At;
    PartialIs(w, d, n);
    Offered(w, d, n, 1);
    PartStep(w, d, n, 1);
    var e := DrainStep(w, d);
    PartialIs(w, e, n);
    assert e.buf[3] == d.buf[3];
    HugePassesWrong(w, e, n, DEATH_COUNTDOWN - 1);
    PassesOn(w, d, DEATH_COUNTDOWN);
  }

  // -------------------------------------------------------------- the theorem

  /** Pieces of two bytes at one time and of `rest` at all others. */
  function Pieces(first: nat, at: nat, rest: nat): Kernel
  {
    t => Attempt(0, 1, Moved(if t == at then first else rest))
  }

  /** Zeros, but for the byte at index 3. */
  function StaleByte(value: char): (nat, nat) -> char { (t, i) => if i == 3 then value else '\0' }

  /** The kernel and the stack that mislead a check, as the header allows. */
  function Misleader(w: World, clock: nat, header: string, some: nat): World
    requires |header| == HEADER_SIZE
  {
    if At(header, 3) != 0 then
      w.(kernel := if some == 0 then Pieces(1, clock, PLENTY) else Pieces(PLENTY, clock, PLENTY), stack := StaleByte('\0'))
    else
      w.(kernel := if some > 0 then Pieces(1, clock, 1)
                   else if At(header, 1) == 0 then Pieces(2, clock, 1)
                   else Pieces(2, clock + 2, 1),
         stack := StaleByte(1 as char))
  }

  lemma MisleaderWorks(w: World, d: Drain, n: nat)
    requires 0 < n < HEADER_LIMIT && 0 <= d.health.some && CanMislead(Header(n), d.health.some)
    requires var v := Misleader(w, d.wire.clock, Header(n), d.health.some);
      Partial(v, d, n) && d.buf == Garbage(v, d.wire.clock, DRAIN_BUFFER)
    ensures PassesWrong(Misleader(w, d.wire.clock, Header(n), d.health.some), d, DEATH_COUNTDOWN)
  {
    var v, some := Misleader(w, d.wire.clock, Header(n), d.health.some), d.health.some;
    var clock := d.wire.clock;
    PartialIs(v, d, n);
    hide Partial, DrainStep, Header, ContentLength, ReadAligned;
    if At(Header(n), 3) != 0 {
      assert v.kernel(clock + 1).io == v.kernel(clock + 2).io == Moved(PLENTY) && Byte(d.buf[3]) == 0;
      if some == 0 { OneThenHuge(v, d, n); } else { HugePassesWrong(v, d, n, DEATH_COUNTDOWN); }
    } else {
      assert OneBehind(d.buf);
      if some > 0 {
        OneByOne(v, d, n, DEATH_COUNTDOWN);
      } else if At(Header(n), 1) == 0 {
        TwoThenOnes(v, d, n);
      } else {
        OnesThenTwo(v, d, n);
      }
    }
  }

  /** Length of the outstanding reply, or nothing when there is none. */
  ghost function Owed(w: World, c: Client): nat
    requires Frames(c.wire.out) != []
  {
    var reply := Outstanding(w, Frames(c.wire.out));
    if reply.None? then 0 else |Sent(reply.value)|
  }

  lemma StartsPartial(w: World, v: World, c: Client)
    requires Inv(w, c) && c.open && !c.corrupt && c.health.state.HeaderReadSome? && v.serve == w.serve
    requires Frames(c.wire.out) != [] ==> Outstanding(w, Frames(c.wire.out)).Some?
    ensures Frames(c.wire.out) != [] && ClientOk(v, c) && Partial(v, StartDrain(v, c), Owed(w, c))
    ensures Owed(w, c) < HEADER_LIMIT
  {
    hide Replies, Frames, Rest, Sent;
    var requests := Frames(c.wire.out);
    Runs.SameReplies(w, v, requests);
    Runs.SameReplies(w, v, requests[..|requests| - 1]);
  }

  /** Nothing outstanding, nothing to read. */
  lemma NoReplyNoPass(w: World, d: Drain, countdown: nat)
    requires DrainOk(w, d) && ReadAligned(w, d.wire, d.health) && d.health.state.HeaderReadSome?
    requires Outstanding(w, Frames(d.wire.out)).None?
    ensures !CheckLoop(w, d, countdown).0
  {
    hide Replies, Frames, DrainStep;
    LastReply(w, Frames(d.wire.out));
    if countdown > 0 { NothingRead(w, d, countdown); }
  }

  /** What such a check comes to. */
  lemma CheckIsLoop(v: World, c: Client)
    requires ClientOk(v, c) && c.open && !c.corrupt && c.health.state.HeaderReadSome? && Aligned(c.wire.out)
    ensures Check(v, c).0 && !Inv(v, Check(v, c).1) <==> PassesWrong(v, StartDrain(v, c), DEATH_COUNTDOWN)
  {
    hide CheckLoop, Frames, Replies, ReadAligned, Aligned;
    CheckStaysWithin(v, c);
  }

  /** Main result. Some kernel and some stale buffer make the check of an aligned
      client, with a header abandoned, pass in the wrong place if and only if a reply
      that is not empty is outstanding whose header can mislead. For every reply of
      less than 2^16 bytes that is: its length is a multiple of 256. */
  lemma CheckMisplacesExactly(w: World, c: Client)
    requires Inv(w, c) && c.open && !c.corrupt && c.health.state.HeaderReadSome?
    ensures Frames(c.wire.out) != [] && 0 <= c.health.some
    ensures (exists v: World :: v.serve == w.serve && ClientOk(v, c) && Check(v, c).0 && !Inv(v, Check(v, c).1))
       <==> Owed(w, c) > 0 && CanMislead(Header(Owed(w, c)), c.health.some)
  {
    hide Check, CheckLoop, Frames, Rest, Replies, Sent, Partial, PassesWrong, CanMislead, ReadAligned, Header;
    StartFacts(w, c);
    var n, requests := Owed(w, c), Frames(c.wire.out);
    if Outstanding(w, requests).None? {
      forall v: World | v.serve == w.serve && ClientOk(v, c) ensures !PassesWrong(v, StartDrain(v, c), DEATH_COUNTDOWN) {
        NoneOutstanding(w, v, c);
        CheckIsLoop(v, c);
      }
    } else {
      forall v: World | v.serve == w.serve && ClientOk(v, c) && PassesWrong(v, StartDrain(v, c), DEATH_COUNTDOWN)
        ensures n > 0 && CanMislead(Header(n), c.health.some)
      {
        StartsPartial(w, v, c);
        PassNeeds(v, StartDrain(v, c), n);
      }
      if n > 0 && CanMislead(Header(n), c.health.some) {
        var v := Misleader(w, c.wire.clock, Header(n), c.health.some);
        StartsPartial(w, v, c);
        MisleaderWorks(w, StartDrain(v, c), n);
        CheckIsLoop(v, c);
      }
    }
    forall v: World | v.serve == w.serve && ClientOk(v, c)
      ensures Check(v, c).0 && !Inv(v, Check(v, c).1) <==> PassesWrong(v, StartDrain(v, c), DEATH_COUNTDOWN)
    {
      CheckIsLoop(v, c);
    }
  }

  lemma StartFacts(w: World, c: Client)
    requires Inv(w, c) && c.open && !c.corrupt && c.health.state.HeaderReadSome?
    ensures Frames(c.wire.out) != [] && 0 <= c.health.some < HEADER_SIZE && Aligned(c.wire.out)
  {
    hide Frames, Rest, Replies;
  }

  lemma NoneOutstanding(w: World, v: World, c: Client)
    requires Inv(w, c) && c.open && !c.corrupt && c.health.state.HeaderReadSome? && v.serve == w.serve && ClientOk(v, c)
    requires Frames(c.wire.out) != [] && Outstanding(w, Frames(c.wire.out)).None?
    ensures !PassesWrong(v, StartDrain(v, c), DEATH_COUNTDOWN)
  {
    hide Frames, Rest, Replies, CheckLoop;
    var requests := Frames(c.wire.out);
    Runs.SameReplies(w, v, requests[..|requests| - 1]);
    NoReplyNoPass(v, StartDrain(v, c), DEATH_COUNTDOWN);
  }

  lemma PassNeeds(v: World, d: Drain, n: nat)
    requires Partial(v, d, n) && n < HEADER_LIMIT && PassesWrong(v, d, DEATH_COUNTDOWN)
    ensures 0 <= d.health.some && n > 0 && CanMislead(Header(n), d.health.some)
  {
    PartialIs(v, d, n);
    hide Partial, PassesWrong, Header;
    if d.health.some == 0 { NoneReadNeeds(v, d, n); } else { SomeReadNeeds(v, d, n, DEATH_COUNTDOWN); }
  }

  /** For replies of less than 2^16 bytes, in a word. */
  lemma MultiplesOf256Mislead(n: nat, some: nat)
    requires 0 < n < 0x1_0000
    ensures CanMislead(Header(n), some) <==> n % 0x100 == 0
  {
  }
}
