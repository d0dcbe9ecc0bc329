/** The bounded retry loop every transfer goes through (trpc/detail/bestEffort.h).

    The kernel is a function from time to what happens to the attempt made then:
    how late the loop already is, what `poll` reports, and what the transfer
    does. Every statement below holds for every such function. */
module BestEffort {

  /** One `read` or `write`: bytes moved, end of stream (or a duplicate event,
      which also returns 0), or an errno. */
  datatype Io = Moved(n: nat) | Fin | Intr | Again | Fatal

  datatype Attempt = Attempt(elapsed: nat, poll: int, io: Io)

  type Kernel = nat -> Attempt

  /** A transfer in progress or finished: the value returned, the bytes really
      moved, the clock after it, and the milliseconds of `poll` it asked for. */
  datatype Transfer = Transfer(ret: int, moved: nat, clock: nat, waited: nat)

  function Min(a: nat, b: nat): nat { if a <= b then a else b }

  /** What the kernel can really do when `want` bytes are asked for and `have`
      are there. A transfer of nothing returns 0; with nothing there, it would
      block. */
  function Settle(io: Io, want: nat, have: nat): (r: Io)
    ensures r.Moved? ==> 0 < r.n <= want && r.n <= have
  {
    if !io.Moved? then io
    else if want == 0 then Fin
    else
      var n := Min(io.n, Min(want, have));
      if n == 0 then Again else Moved(n)
  }

  datatype Step = Retry(x: Transfer) | Done(x: Transfer)

  /** One round of the loop of `bestEffortTemplate`. */
  function Once(k: Kernel, size: nat, have: nat, timeout: int, interval: nat, x: Transfer): (r: Step)
    requires x.moved <= size && x.moved <= have
    ensures r.x.moved <= size && r.x.moved <= have
  {
    var a := k(x.clock);
    if a.elapsed > timeout then Done(x.(ret := -1, clock := x.clock + 1))
    else
      var y := x.(clock := x.clock + 1, waited := x.waited + interval);
      if a.poll < 0 then Done(y.(ret := -1))
      else if a.poll == 0 then Retry(y)
      else
        match Settle(a.io, size - x.moved, have - x.moved)
        case Intr => Retry(y)
        case Again => Retry(y)
        case Fatal => Done(y.(ret := -1))
        case Fin => Done(y.(ret := y.moved))
        case Moved(n) =>
          var z := y.(moved := y.moved + n);
          if z.moved == size then Done(z.(ret := size)) else Retry(z)
  }

  /** The loop, from any point on. */
  function Loop(k: Kernel, size: nat, have: nat, timeout: int, interval: nat, retries: nat, x: Transfer): Transfer
    requires x.moved <= size && x.moved <= have
    decreases retries
  {
    if retries == 0 then
      x.(ret := if x.moved == 0 then -1 else x.moved)
    else
      match Once(k, size, have, timeout, interval, x)
      case Done(y) => y
      case Retry(y) => Loop(k, size, have, timeout, interval, retries - 1, y)
  }

  /** `timeout.count() / maxRetries`; a negative timeout never gets to wait. */
  function Interval(timeout: int, maxRetries: nat): nat
    requires maxRetries > 0
  {
    if timeout < 0 then 0 else timeout / maxRetries
  }

  lemma LoopOnce(k: Kernel, size: nat, have: nat, timeout: int, interval: nat, retries: nat, x: Transfer, goal: Transfer)
    requires x.moved <= size && x.moved <= have && retries > 0
    requires goal == Loop(k, size, have, timeout, interval, retries, x)
    ensures match Once(k, size, have, timeout, interval, x)
      case Done(y) => goal == y
      case Retry(y) => goal == Loop(k, size, have, timeout, interval, retries - 1, y)
  {
  }

  lemma {:induction false} LoopAccounts(k: Kernel, size: nat, have: nat, timeout: int, interval: nat, retries: nat, x: Transfer)
    requires x.moved <= size && x.moved <= have
    ensures var r := Loop(k, size, have, timeout, interval, retries, x);
      && x.moved <= r.moved <= size && r.moved <= have
      && x.clock <= r.clock <= x.clock + retries
      && r.waited <= x.waited + retries * interval
      && (r.ret == -1 || r.ret == r.moved)
      && (retries > 0 && timeout < 0 ==> r.waited == x.waited)
    decreases retries
  {
    if retries > 0 {
      assert retries * interval == interval + (retries - 1) * interval;
      assert 0 <= (retries - 1) * interval;
      LoopAccounts(k, size, have, timeout, interval, retries - 1, Once(k, size, have, timeout, interval, x).x);
    }
  }

  /** `bestEffortTemplate` started at time `clock`. */
  function Run(k: Kernel, size: nat, have: nat, timeout: int, maxRetries: nat, clock: nat): (r: Transfer)
    requires maxRetries > 0
    ensures r.moved <= size && r.moved <= have && (r.ret == -1 || r.ret == r.moved) && clock <= r.clock
  {
    var interval := Interval(timeout, maxRetries);
    var start := Transfer(0, 0, clock, 0);
    LoopAccounts(k, size, have, timeout, interval, maxRetries, start);
    Loop(k, size, have, timeout, interval, maxRetries, start)
  }

  /** Byte and time accounting, for every kernel: a result that is not -1 counts
      exactly the bytes moved, there are at most `maxRetries` attempts, and the
      waits asked for add up to at most the timeout. */
  lemma RunAccounts(k: Kernel, size: nat, have: nat, timeout: int, maxRetries: nat, clock: nat)
    requires maxRetries > 0
    ensures var r := Run(k, size, have, timeout, maxRetries, clock);
      && (r.ret == -1 || r.ret == r.moved)
      && r.moved <= size && r.moved <= have
      && clock <= r.clock <= clock + maxRetries
      && r.waited <= if timeout < 0 then 0 else timeout
  {
    var interval := Interval(timeout, maxRetries);
    LoopAccounts(k, size, have, timeout, interval, maxRetries, Transfer(0, 0, clock, 0));
    if timeout >= 0 {
      assert timeout == timeout / maxRetries * maxRetries + timeout % maxRetries;
    }
  }

  /** Moving everything is reported as such. */
  lemma RunAllOrLess(k: Kernel, size: nat, have: nat, timeout: int, maxRetries: nat, clock: nat)
    requires maxRetries > 0 && size > 0
    ensures var t := Run(k, size, have, timeout, maxRetries, clock); t.moved == size ==> t.ret == size
  {
    LoopAllOrLess(k, size, have, timeout, Interval(timeout, maxRetries), maxRetries, Transfer(0, 0, clock, 0));
  }

  lemma {:induction false} LoopAllOrLess(k: Kernel, size: nat, have: nat, timeout: int, interval: nat, retries: nat, x: Transfer)
    requires x.moved < size && x.moved <= have
    ensures var t := Loop(k, size, have, timeout, interval, retries, x); t.moved == size ==> t.ret == size
    decreases retries
  {
    if retries > 0 {
      var step := Once(k, size, have, timeout, interval, x);
      if step.Retry? { LoopAllOrLess(k, size, have, timeout, interval, retries - 1, step.x); }
    }
  }

  /** More than any transfer asks for. */
  const PLENTY := 0x1_0000_0000

  /** The attempt made now is not late and moves all it can. */
  predicate PromptAt(k: Kernel, timeout: int, now: nat)
  {
    k(now).elapsed <= timeout && k(now).poll > 0 && k(now).io.Moved? && k(now).io.n >= PLENTY
  }

  /** So is every attempt from some time on. */
  ghost predicate FaultFree(k: Kernel, timeout: int, from: nat)
  {
    forall t: nat | from <= t :: PromptAt(k, timeout, t)
  }

  lemma FaultFreeLater(k: Kernel, timeout: int, from: nat, later: nat)
    requires FaultFree(k, timeout, from) && from <= later
    ensures FaultFree(k, timeout, later)
  {
  }

  lemma PromptRun(k: Kernel, size: nat, have: nat, timeout: int, maxRetries: nat, clock: nat)
    requires PromptAt(k, timeout, clock) && maxRetries > 0 && size <= have && size <= PLENTY
    ensures var t := Run(k, size, have, timeout, maxRetries, clock); t.ret == t.moved == size && t.clock == clock + 1
  {
    var step := Once(k, size, have, timeout, Interval(timeout, maxRetries), Transfer(0, 0, clock, 0));
    assert step.Done? && step.x.ret == size;
  }

  lemma FaultFreeRun(k: Kernel, size: nat, have: nat, timeout: int, maxRetries: nat, clock: nat)
    requires FaultFree(k, timeout, clock) && maxRetries > 0 && size <= have && size <= PLENTY
    ensures var t := Run(k, size, have, timeout, maxRetries, clock); t.ret == t.moved == size && t.clock == clock + 1
  {
    hide Run;
    assert PromptAt(k, timeout, clock);
    PromptRun(k, size, have, timeout, maxRetries, clock);
  }

  /** Attempts whose `poll` times out. */
  ghost predicate SilentFrom(k: Kernel, timeout: int, from: nat, attempts: nat)
  {
    forall t: nat | from <= t < from + attempts :: k(t).elapsed <= timeout && k(t).poll == 0
  }

  /** Silence to the end of the loop reports what was moved before it, if anything. */
  lemma {:induction false} SilentLoop(k: Kernel, size: nat, have: nat, timeout: int, interval: nat, retries: nat, x: Transfer)
    requires x.moved <= size && x.moved <= have && SilentFrom(k, timeout, x.clock, retries)
    ensures var r := Loop(k, size, have, timeout, interval, retries, x);
      r.ret == (if x.moved == 0 then -1 else x.moved) && r.moved == x.moved && r.clock == x.clock + retries
    decreases retries
  {
    if retries > 0 {
      assert k(x.clock).elapsed <= timeout && k(x.clock).poll == 0;
      var step := Once(k, size, have, timeout, interval, x);
      SilentLoop(k, size, have, timeout, interval, retries - 1, step.x);
    }
  }

  /** A transfer cut short by silence after its first attempt, or before it. */
  lemma SilentRun(k: Kernel, size: nat, have: nat, timeout: int, maxRetries: nat, clock: nat, n: nat)
    requires maxRetries > 0 && n < size && n <= have && timeout >= 0
    requires if n == 0 then SilentFrom(k, timeout, clock, maxRetries)
      else k(clock) == Attempt(0, 1, Moved(n)) && SilentFrom(k, timeout, clock + 1, maxRetries - 1)
    ensures var r := Run(k, size, have, timeout, maxRetries, clock);
      r.ret == (if n == 0 then -1 else n) && r.moved == n && r.clock == clock + maxRetries
  {
    var interval := Interval(timeout, maxRetries);
    var start := Transfer(0, 0, clock, 0);
    if n == 0 {
      SilentLoop(k, size, have, timeout, interval, maxRetries, start);
    } else {
      var step := Once(k, size, have, timeout, interval, start);
      assert step == Retry(Transfer(0, n, clock + 1, interval));
      SilentLoop(k, size, have, timeout, interval, maxRetries - 1, step.x);
    }
  }

  /** One byte, then an error: -1 after progress. */
  lemma OneByteHides(k: Kernel, size: nat, have: nat, timeout: int, maxRetries: nat, clock: nat)
    requires size >= 2 && have >= 1 && maxRetries >= 2 && timeout >= 0
    requires k(clock) == Attempt(0, 1, Moved(1)) && k(clock + 1) == Attempt(0, 1, Fatal)
    ensures var t := Run(k, size, have, timeout, maxRetries, clock); t.ret == -1 && t.moved == 1 && t.clock == clock + 2
  {
    var interval := Interval(timeout, maxRetries);
    var y := Transfer(0, 1, clock + 1, interval);
    assert Once(k, size, have, timeout, interval, Transfer(0, 0, clock, 0)) == Retry(y);
    assert Once(k, size, have, timeout, interval, y).Done?;
    assert Run(k, size, have, timeout, maxRetries, clock) == Loop(k, size, have, timeout, interval, maxRetries - 1, y);
  }

  /** -1 although bytes were moved: the caller is told of no progress at all. */
  ghost predicate HidesProgress(r: Transfer)
  {
    r.ret == -1 && r.moved > 0
  }

  /** A kernel that moves one byte and then fails. */
  function OneByteThenFatal(clock: nat): Kernel
  {
    t => Attempt(0, 1, if t == clock then Moved(1) else Fatal)
  }

  /** Exactly when some kernel can make a transfer hide its progress: it must be
      able to move a byte, have another to move, and an attempt left to fail in. */
  lemma ProgressCanHide(size: nat, have: nat, timeout: int, maxRetries: nat, clock: nat)
    requires maxRetries > 0
    ensures (exists k: Kernel :: HidesProgress(Run(k, size, have, timeout, maxRetries, clock)))
       <==> size >= 2 && have >= 1 && maxRetries >= 2 && timeout >= 0
  {
    var interval := Interval(timeout, maxRetries);
    var start := Transfer(0, 0, clock, 0);
    if size >= 2 && have >= 1 && maxRetries >= 2 && timeout >= 0 {
      var k := OneByteThenFatal(clock);
      OneByteHides(k, size, have, timeout, maxRetries, clock);
      assert HidesProgress(Run(k, size, have, timeout, maxRetries, clock));
    } else {
      forall k: Kernel ensures !HidesProgress(Run(k, size, have, timeout, maxRetries, clock)) {
        RunAccounts(k, size, have, timeout, maxRetries, clock);
        if size >= 2 && have >= 1 {
          NoHiding(k, size, have, timeout, interval, maxRetries, start);
        } else if size == 1 {
          OneByteIsAllOrNothing(k, have, timeout, interval, maxRetries, start);
        }
      }
    }
  }

  lemma NoHiding(k: Kernel, size: nat, have: nat, timeout: int, interval: nat, retries: nat, x: Transfer)
    requires x.moved == 0 && (retries <= 1 || timeout < 0)
    ensures !HidesProgress(Loop(k, size, have, timeout, interval, retries, x))
  {
  }

  lemma {:induction false} OneByteIsAllOrNothing(k: Kernel, have: nat, timeout: int, interval: nat, retries: nat, x: Transfer)
    requires x.moved == 0
    ensures !HidesProgress(Loop(k, 1, have, timeout, interval, retries, x))
    decreases retries
  {
    if retries > 0 {
      var step := Once(k, 1, have, timeout, interval, x);
      if step.Retry? { OneByteIsAllOrNothing(k, have, timeout, interval, retries - 1, step.x); }
    }
  }

  /** A transfer that always reports the one byte it was asked for. */
  function Stub(k: Kernel): Kernel { (t: nat) => k(t).(io := Moved(1)) }

  /** `bestEffortPending`: the loop with one attempt and that transfer. */
  function PendingRun(k: Kernel, timeout: int, clock: nat): Transfer
  {
    Run(Stub(k), 1, 1, timeout, 1, clock)
  }

  predicate Pending(k: Kernel, timeout: int, clock: nat) { PendingRun(k, timeout, clock).ret == 1 }

  /** So only the lateness and the poll of one attempt matter. */
  lemma PendingIsOneAttempt(k: Kernel, timeout: int, clock: nat)
    ensures Pending(k, timeout, clock) <==> k(clock).elapsed <= timeout && k(clock).poll > 0
    ensures PendingRun(k, timeout, clock).clock == clock + 1
  {
    var interval := Interval(timeout, 1);
    var step := Once(Stub(k), 1, 1, timeout, interval, Transfer(0, 0, clock, 0));
    if step.Retry? { assert Loop(Stub(k), 1, 1, timeout, interval, 0, step.x) == step.x.(ret := -1); }
  }

  // --------------------------------------------------------------- the machine

  datatype Direction = Reading | Writing

  /** Buffer `b` after `bytes` were stored in it at `at`. */
  function Stored(b: string, at: nat, bytes: string): string
    requires at + |bytes| <= |b|
  {
    b[..at] + bytes + b[at + |bytes|..]
  }

  /** What has changed once `n` bytes went through: a read stores the next inbound
      bytes, in order; a write appends the next bytes of the buffer, in order. */
  ghost predicate Through(direction: Direction, inbound: string, at: nat, n: nat,
                          out: string, consumed: nat, buf: string,
                          out': string, consumed': nat, buf': string)
  {
    && at + n <= |buf|
    && if direction.Reading? then
         && out' == out && consumed' == consumed + n <= |inbound|
         && buf' == Stored(buf, at, inbound[consumed..consumed'])
       else
         out' == out + buf[at..at + n] && consumed' == consumed && buf' == buf
  }

  lemma StoredTwice(buf: string, at: nat, x: string, y: string)
    requires at + |x| + |y| <= |buf|
    ensures Stored(Stored(buf, at, x), at + |x|, y) == Stored(buf, at, x + y)
  {
    var once := Stored(buf, at, x);
    assert once[..at + |x|] == buf[..at] + x;
    assert once[at + |x| + |y|..] == buf[at + |x| + |y|..];
    assert (buf[..at] + x) + y == buf[..at] + (x + y);
  }

  lemma SlicesMeet(s: string, i: nat, j: nat, k: nat)
    requires i <= j <= k <= |s|
    ensures s[i..j] + s[j..k] == s[i..k]
  {
  }

  lemma ThroughComposes(direction: Direction, inbound: string, at: nat, m: nat, n: nat,
                        out: string, consumed: nat, buf: string,
                        out1: string, consumed1: nat, buf1: string,
                        out2: string, consumed2: nat, buf2: string)
    requires at + m + n <= |buf|
    requires Through(direction, inbound, at, m, out, consumed, buf, out1, consumed1, buf1)
    requires Through(direction, inbound, at + m, n, out1, consumed1, buf1, out2, consumed2, buf2)
    ensures Through(direction, inbound, at, m + n, out, consumed, buf, out2, consumed2, buf2)
  {
    if direction.Reading? {
      SlicesMeet(inbound, consumed, consumed1, consumed2);
      StoredTwice(buf, at, inbound[consumed..consumed1], inbound[consumed1..consumed2]);
    } else {
      SlicesMeet(buf, at, at + m, at + m + n);
      assert (out + buf[at..at + m]) + buf[at + m..at + m + n] == out + (buf[at..at + m] + buf[at + m..at + m + n]);
    }
  }

  /** One end of a connection: what was written to it, how much of the inbound
      stream was taken from it, and the clock of its attempts. */
  class Socket {
    const kernel: Kernel
    var out: string
    var consumed: nat
    var clock: nat

    constructor (kernel: Kernel)
      ensures this.kernel == kernel && out == "" && consumed == 0 && clock == 0
    {
      this.kernel := kernel;
      out, consumed, clock := "", 0, 0;
    }

    /** Let `n` bytes through between the socket and the buffer. */
    method Move(direction: Direction, inbound: string, buf: array<char>, at: nat, n: nat)
      requires at + n <= buf.Length && (direction.Reading? ==> consumed + n <= |inbound|)
      modifies this, buf
      ensures clock == old(clock) && consumed == old(consumed) + if direction.Reading? then n else 0
      ensures Through(direction, inbound, at, n, old(out), old(consumed), old(buf[..]), out, consumed, buf[..])
    {
      if direction.Writing? {
        out := out + buf[at..at + n];
      } else {
        var i := 0;
        while i < n
          invariant 0 <= i <= n && out == old(out) && clock == old(clock)
          invariant consumed == old(consumed) + i
          invariant forall j | 0 <= j < buf.Length ::
            buf[j] == if at <= j < at + i then inbound[old(consumed) + j - at] else old(buf[j])
        {
          buf[at + i] := inbound[consumed];
          consumed := consumed + 1;
          i := i + 1;
        }
      }
    }

    /** One round of the loop, `offset` bytes after it started from `out0`,
        `consumed0` and `buf0`. */
    method Attempt(direction: Direction, inbound: string, buf: array<char>, at: nat, size: nat, timeout: int, offset: nat,
                   ghost have: nat, ghost interval: nat, ghost x: Transfer,
                   ghost out0: string, ghost consumed0: nat, ghost buf0: string)
        returns (done: bool, ret: int, offset': nat, ghost step: Step)
      requires at + size <= buf.Length && offset <= size && consumed <= |inbound|
      requires x.moved == offset && x.clock == clock && |buf0| == buf.Length
      requires have == offset + if direction.Reading? then |inbound| - consumed else size - offset
      requires Through(direction, inbound, at, offset, out0, consumed0, buf0, out, consumed, buf[..])
      modifies this, buf
      ensures step == Once(kernel, size, have, timeout, interval, x)
      ensures done == step.Done? && offset' == step.x.moved && clock == step.x.clock
      ensures done ==> ret == step.x.ret
      ensures offset' <= size && consumed <= |inbound|
      ensures have == offset' + if direction.Reading? then |inbound| - consumed else size - offset'
      ensures Through(direction, inbound, at, offset', out0, consumed0, buf0, out, consumed, buf[..])
    {
      hide Through;
      offset' := offset;
      step := Once(kernel, size, have, timeout, interval, x);
      var a := kernel(clock);
      clock := clock + 1;
      if a.elapsed > timeout || a.poll < 0 { return true, -1, offset, step; }
      if a.poll == 0 { return false, 0, offset, step; }
      var room := if direction.Reading? then |inbound| - consumed else size - offset;
      match Settle(a.io, size - offset, room) {
        case Intr => return false, 0, offset, step;
        case Again => return false, 0, offset, step;
        case Fatal => return true, -1, offset, step;
        case Fin => return true, offset, offset, step;
        case Moved(n) =>
          ghost var out1, consumed1, buf1 := out, consumed, buf[..];
          Move(direction, inbound, buf, at + offset, n);
          ThroughComposes(direction, inbound, at, offset, n, out0, consumed0, buf0,
                          out1, consumed1, buf1, out, consumed, buf[..]);
          return offset + n == size, size, offset + n, step;
      }
    }

    /** `bestEffortTemplate`. For a read, `inbound` is all that can arrive. */
    method BestEffort(direction: Direction, inbound: string, buf: array<char>, at: nat, size: nat,
                      timeout: int, maxRetries: nat) returns (ret: int, ghost x: Transfer)
      requires maxRetries > 0 && at + size <= buf.Length && consumed <= |inbound|
      modifies this, buf
      ensures x == Run(kernel, size, if direction.Reading? then |inbound| - old(consumed) else size,
                       timeout, maxRetries, old(clock))
      ensures ret == x.ret && clock == x.clock
      ensures Through(direction, inbound, at, x.moved, old(out), old(consumed), old(buf[..]), out, consumed, buf[..])
    {
      var interval := Interval(timeout, maxRetries);
      var retries := 0;
      var offset := 0;
      ghost var have := if direction.Reading? then |inbound| - consumed else size;
      x := Transfer(0, 0, clock, 0);
      ghost var left := maxRetries;
      ghost var goal := Run(kernel, size, have, timeout, maxRetries, clock);
      while retries < maxRetries
        invariant 0 <= retries <= maxRetries && offset == x.moved <= size && x.clock == clock
        invariant Through(direction, inbound, at, offset, old(out), old(consumed), old(buf[..]), out, consumed, buf[..])
        invariant offset <= have && consumed <= |inbound|
        invariant have == offset + if direction.Reading? then |inbound| - consumed else size - offset
        invariant left == maxRetries - retries && goal == Loop(kernel, size, have, timeout, interval, left, x)
      {
        LoopOnce(kernel, size, have, timeout, interval, left, x, goal);
        var done;
        ghost var step;
        done, ret, offset, step := Attempt(direction, inbound, buf, at, size, timeout, offset, have, interval, x,
                                           old(out), old(consumed), old(buf[..]));
        retries, left := retries + 1, left - 1;
        x := step.x;
        if done { return; }
      }
      ret := if offset == 0 then -1 else offset;
      x := x.(ret := ret);
    }
  }
}
