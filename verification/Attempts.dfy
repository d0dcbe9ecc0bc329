/** What a transfer comes to, attempt by attempt (trpc/detail/bestEffort.h): exactly
    which attempts it makes, what each adds, and how it ends, said of the kernel
    alone. And the kernels on which every transfer gets through. */
module Attempts {
  import opened BestEffort

  /** Nothing in this attempt ends the loop but success: it is in time, and it is
      silent, interrupted, unavailable, or moves something. */
  predicate GoesOn(a: Attempt, timeout: int)
  {
    a.elapsed <= timeout && a.poll >= 0 && (a.poll > 0 ==> !a.io.Fatal? && !a.io.Fin?)
  }

  predicate EndsStream(a: Attempt, timeout: int) { a.elapsed <= timeout && a.poll > 0 && a.io.Fin? }

  function Offer(a: Attempt): nat { if a.poll > 0 && a.io.Moved? then a.io.n else 0 }

  /** What `n` attempts from `clock` on offer to move. */
  function Offered(k: Kernel, clock: nat, n: nat): nat
    decreases n
  {
    if n == 0 then 0 else Offer(k(clock)) + Offered(k, clock + 1, n - 1)
  }

  /** After attempt `i` there is another, retries permitting: nothing ended the
      loop, and not everything was moved. */
  predicate Continues(k: Kernel, size: nat, have: nat, timeout: int, moved: nat, clock: nat, i: nat)
  {
    GoesOn(k(clock + i), timeout) && Min(have, moved + Offered(k, clock, i + 1)) < size
  }

  /** What the loop returns when it makes `n` attempts that continue, of at most
      `retries`, and then one that does not. */
  ghost predicate EndsAs(k: Kernel, size: nat, have: nat, timeout: int, moved: nat, clock: nat, retries: nat, n: nat, r: Transfer)
  {
    var before, last := Min(have, moved + Offered(k, clock, n)), k(clock + n);
    && r.clock == clock + (if n < retries then n + 1 else n)
    && if n == retries then r.moved == before && r.ret == (if before == 0 then -1 else before)
       else if GoesOn(last, timeout) then r.ret == r.moved == size
       else r.moved == before && r.ret == (if EndsStream(last, timeout) then before else -1)
  }

  /** An attempt that continues adds what it offers. */
  lemma OnceContinues(k: Kernel, size: nat, have: nat, timeout: int, interval: nat, x: Transfer)
    requires x.moved < size && x.moved <= have && Continues(k, size, have, timeout, x.moved, x.clock, 0)
    ensures var step := Once(k, size, have, timeout, interval, x);
      step.Retry? && step.x.clock == x.clock + 1 && step.x.moved == Min(have, x.moved + Offer(k(x.clock))) < size
  {
    assert Offered(k, x.clock, 1) == Offer(k(x.clock)) + Offered(k, x.clock + 1, 0);
  }

  lemma OnceEnds(k: Kernel, size: nat, have: nat, timeout: int, interval: nat, x: Transfer, retries: nat)
    requires x.moved < size && x.moved <= have && retries > 0 && !Continues(k, size, have, timeout, x.moved, x.clock, 0)
    ensures var step := Once(k, size, have, timeout, interval, x);
      step.Done? && EndsAs(k, size, have, timeout, x.moved, x.clock, retries, 0, step.x)
  {
    assert Offered(k, x.clock, 1) == Offer(k(x.clock)) + Offered(k, x.clock + 1, 0);
  }

  /** The attempts after the first, seen from after the first. */
  lemma Later(k: Kernel, have: nat, moved: nat, clock: nat, i: nat)
    ensures Min(have, Min(have, moved + Offer(k(clock))) + Offered(k, clock + 1, i)) == Min(have, moved + Offered(k, clock, i + 1))
  {
  }

  lemma ContinuesLater(k: Kernel, size: nat, have: nat, timeout: int, moved: nat, clock: nat, i: nat)
    ensures var next := Min(have, moved + Offer(k(clock)));
      Continues(k, size, have, timeout, next, clock + 1, i) <==> Continues(k, size, have, timeout, moved, clock, i + 1)
  {
    Later(k, have, moved, clock, i + 1);
    hide Offered, Min;
  }

  lemma {:induction false} LoopExactly(k: Kernel, size: nat, have: nat, timeout: int, interval: nat, retries: nat, x: Transfer,
                                       n: nat)
    requires x.moved < size && x.moved <= have && n <= retries
    requires forall i | 0 <= i < n :: Continues(k, size, have, timeout, x.moved, x.clock, i)
    requires n < retries ==> !Continues(k, size, have, timeout, x.moved, x.clock, n)
    ensures EndsAs(k, size, have, timeout, x.moved, x.clock, retries, n, Loop(k, size, have, timeout, interval, retries, x))
    decreases n
  {
    hide Once, Continues;
    if retries == 0 {
      assert Offered(k, x.clock, 0) == 0;
    } else if n == 0 {
      OnceEnds(k, size, have, timeout, interval, x, retries);
    } else {
      OnceContinues(k, size, have, timeout, interval, x);
      var y := Once(k, size, have, timeout, interval, x).x;
      forall i | 0 <= i < n ensures
        Continues(k, size, have, timeout, y.moved, y.clock, i) <==> Continues(k, size, have, timeout, x.moved, x.clock, i + 1)
      {
        ContinuesLater(k, size, have, timeout, x.moved, x.clock, i);
      }
      LoopExactly(k, size, have, timeout, interval, retries - 1, y, n - 1);
      Later(k, have, x.moved, x.clock, n - 1);
      assert y.clock + (n - 1) == x.clock + n;
    }
  }

  /** Main result: every transfer, on every kernel, by the number of attempts that
      leave it unfinished. An interrupted, unavailable, silent or short attempt is
      followed by another, and what they move adds up. */
  lemma RunExactly(k: Kernel, size: nat, have: nat, timeout: int, maxRetries: nat, clock: nat, n: nat)
    requires maxRetries > 0 && size > 0 && n <= maxRetries
    requires forall i | 0 <= i < n :: Continues(k, size, have, timeout, 0, clock, i)
    requires n < maxRetries ==> !Continues(k, size, have, timeout, 0, clock, n)
    ensures EndsAs(k, size, have, timeout, 0, clock, maxRetries, n, Run(k, size, have, timeout, maxRetries, clock))
  {
    LoopExactly(k, size, have, timeout, Interval(timeout, maxRetries), maxRetries, Transfer(0, 0, clock, 0), n);
  }

  /** There is always such a number. */
  lemma {:induction false} HowMany(k: Kernel, size: nat, have: nat, timeout: int, clock: nat, most: nat) returns (n: nat)
    ensures n <= most && forall i | 0 <= i < n :: Continues(k, size, have, timeout, 0, clock, i)
    ensures n < most ==> !Continues(k, size, have, timeout, 0, clock, n)
  {
    n := 0;
    while n < most && Continues(k, size, have, timeout, 0, clock, n)
      invariant n <= most && forall i | 0 <= i < n :: Continues(k, size, have, timeout, 0, clock, i)
    {
      n := n + 1;
    }
  }

  /** How many of the attempts from `from` to `to` got to their `poll`: all but a last
      one that came late. */
  function Polls(k: Kernel, timeout: int, from: nat, to: nat): int
  {
    if to > from && k(to - 1).elapsed > timeout then to - from - 1 else to - from
  }

  lemma OneMoreWait(n: int, interval: nat)
    ensures (n + 1) * interval == interval + n * interval
  {
  }

  lemma OnceWaits(k: Kernel, size: nat, have: nat, timeout: int, interval: nat, x: Transfer)
    requires x.moved <= size && x.moved <= have
    ensures var step := Once(k, size, have, timeout, interval, x); var y := step.x;
      && y.clock == x.clock + 1
      && (k(x.clock).elapsed > timeout ==> step.Done?)
      && y.waited == x.waited + if k(x.clock).elapsed > timeout then 0 else interval
  {
  }

  lemma {:induction false} LoopWaits(k: Kernel, size: nat, have: nat, timeout: int, interval: nat, retries: nat, x: Transfer)
    requires x.moved <= size && x.moved <= have
    ensures var r := Loop(k, size, have, timeout, interval, retries, x);
      x.clock <= r.clock && r.waited == x.waited + Polls(k, timeout, x.clock, r.clock) * interval
    decreases retries
  {
    hide Once;
    if retries > 0 {
      var step := Once(k, size, have, timeout, interval, x);
      OnceWaits(k, size, have, timeout, interval, x);
      if step.Retry? {
        LoopWaits(k, size, have, timeout, interval, retries - 1, step.x);
        OneMoreWait(Polls(k, timeout, step.x.clock, Loop(k, size, have, timeout, interval, retries - 1, step.x).clock), interval);
      }
    }
  }

  /** A transfer asks `poll` to wait for one interval in each attempt, but not in one
      that comes late. */
  lemma RunWaitsExactly(k: Kernel, size: nat, have: nat, timeout: int, maxRetries: nat, clock: nat)
    requires maxRetries > 0
    ensures var r := Run(k, size, have, timeout, maxRetries, clock);
      r.waited == Polls(k, timeout, clock, r.clock) * Interval(timeout, maxRetries)
  {
    LoopWaits(k, size, have, timeout, Interval(timeout, maxRetries), maxRetries, Transfer(0, 0, clock, 0));
  }

  // ------------------------------------------------------------------- success

  ghost predicate AllGoOn(k: Kernel, timeout: int, clock: nat, n: nat)
  {
    forall t: nat | clock <= t < clock + n :: GoesOn(k(t), timeout)
  }

  /** Enough is moved within `n` attempts none of which ends the loop. */
  ghost predicate EnoughIn(k: Kernel, size: nat, timeout: int, clock: nat, n: nat)
  {
    AllGoOn(k, timeout, clock, n) && Offered(k, clock, n) >= size
  }

  /** Exactly when a transfer succeeds: when all of it is there, and some number of
      attempts within the limit, interrupted, unavailable and silent ones included,
      moves it before one fails, comes late or ends the stream. */
  lemma RunSucceedsExactly(k: Kernel, size: nat, have: nat, timeout: int, maxRetries: nat, clock: nat)
    requires maxRetries > 0 && size > 0
    ensures Run(k, size, have, timeout, maxRetries, clock).ret == size
       <==> have >= size && exists n: nat | n <= maxRetries :: EnoughIn(k, size, timeout, clock, n)
  {
    hide Run, Offered, AllGoOn;
    var m := HowMany(k, size, have, timeout, clock, maxRetries);
    RunExactly(k, size, have, timeout, maxRetries, clock, m);
    NotYet(k, size, have, timeout, clock, m);
    if Run(k, size, have, timeout, maxRetries, clock).ret == size { EnoughNext(k, size, have, timeout, clock, m); }
    if n: nat :| n <= maxRetries && EnoughIn(k, size, timeout, clock, n) && have >= size {
      NotEnough(k, size, have, timeout, clock, m, n);
    }
  }

  lemma NotYet(k: Kernel, size: nat, have: nat, timeout: int, clock: nat, m: nat)
    requires size > 0 && forall i | 0 <= i < m :: Continues(k, size, have, timeout, 0, clock, i)
    ensures Min(have, Offered(k, clock, m)) < size
  {
    hide Offered;
    if m > 0 { assert Continues(k, size, have, timeout, 0, clock, m - 1); } else { NoneOffered(k, clock); }
  }

  lemma EnoughNext(k: Kernel, size: nat, have: nat, timeout: int, clock: nat, m: nat)
    requires forall i | 0 <= i < m :: Continues(k, size, have, timeout, 0, clock, i)
    requires GoesOn(k(clock + m), timeout) && !Continues(k, size, have, timeout, 0, clock, m)
    ensures EnoughIn(k, size, timeout, clock, m + 1) && have >= size
  {
    hide Offered;
    forall t: nat | clock <= t < clock + m ensures GoesOn(k(t), timeout) {
      assert Continues(k, size, have, timeout, 0, clock, t - clock);
    }
  }

  lemma NotEnough(k: Kernel, size: nat, have: nat, timeout: int, clock: nat, m: nat, n: nat)
    requires size > 0 && have >= size && EnoughIn(k, size, timeout, clock, n)
    requires forall i | 0 <= i < m :: Continues(k, size, have, timeout, 0, clock, i)
    ensures n > m && GoesOn(k(clock + m), timeout)
  {
    hide Offered;
    if n == 0 { NoneOffered(k, clock); }
    forall i: nat | 0 < i <= m ensures Min(have, Offered(k, clock, i)) < size {
      assert Continues(k, size, have, timeout, 0, clock, i - 1);
    }
  }

  lemma NoneOffered(k: Kernel, clock: nat)
    ensures Offered(k, clock, 0) == 0
  {
  }

  /** An attempt that moves nothing and ends nothing: interrupted, unavailable, or
      silent. */
  predicate Idles(a: Attempt, timeout: int)
  {
    a.elapsed <= timeout && (a.poll == 0 || (a.poll > 0 && (a.io.Intr? || a.io.Again?)))
  }

  /** Idle attempts, fewer than the limit, before a prompt one: all is moved, and the
      clock counts every attempt. */
  lemma IdleThenPrompt(k: Kernel, size: nat, have: nat, timeout: int, maxRetries: nat, clock: nat, idle: nat)
    requires 0 < size <= have && size <= PLENTY && idle < maxRetries && PromptAt(k, timeout, clock + idle)
    requires forall t: nat | clock <= t < clock + idle :: Idles(k(t), timeout)
    ensures var r := Run(k, size, have, timeout, maxRetries, clock); r.ret == r.moved == size && r.clock == clock + idle + 1
  {
    hide Run;
    forall i: nat | i <= idle ensures Offered(k, clock, i) == 0 { OffersNothing(k, clock, i); }
    OfferedMore(k, clock, idle);
    forall i: nat | i < idle ensures Continues(k, size, have, timeout, 0, clock, i) {
      assert Idles(k(clock + i), timeout) && Offered(k, clock, i + 1) == 0;
    }
    assert !Continues(k, size, have, timeout, 0, clock, idle);
    RunExactly(k, size, have, timeout, maxRetries, clock, idle);
  }

  lemma {:induction false} OffersNothing(k: Kernel, clock: nat, n: nat)
    requires forall t: nat | clock <= t < clock + n :: Offer(k(t)) == 0
    ensures Offered(k, clock, n) == 0
    decreases n
  {
    if n > 0 { OffersNothing(k, clock + 1, n - 1); }
  }

  lemma {:induction false} OfferedMore(k: Kernel, clock: nat, n: nat)
    ensures Offered(k, clock, n + 1) == Offered(k, clock, n) + Offer(k(clock + n))
    decreases n
  {
    if n > 0 { OfferedMore(k, clock + 1, n - 1); }
  }

  // ------------------------------------------------------------ steady kernels

  ghost predicate PromptWithin(k: Kernel, timeout: int, from: nat, attempts: nat)
  {
    exists t: nat :: from <= t < from + attempts && PromptAt(k, timeout, t)
  }

  /** From some time on no attempt is late, fails or ends the stream, and among any
      `retries` attempts in a row one is prompt. The others may be interrupted,
      unavailable, silent or short. */
  ghost predicate Steady(k: Kernel, timeout: int, retries: nat, from: nat)
  {
    && (forall t: nat | from <= t :: GoesOn(k(t), timeout))
    && (forall t: nat | from <= t :: PromptWithin(k, timeout, t, retries))
  }

  lemma SteadyLater(k: Kernel, timeout: int, retries: nat, from: nat, later: nat)
    requires Steady(k, timeout, retries, from) && from <= later
    ensures Steady(k, timeout, retries, later)
  {
  }

  lemma FaultFreeIsSteady(k: Kernel, timeout: int, retries: nat, from: nat)
    requires FaultFree(k, timeout, from) && retries > 0
    ensures Steady(k, timeout, retries, from)
  {
    forall t: nat | from <= t ensures GoesOn(k(t), timeout) { assert PromptAt(k, timeout, t); }
    forall t: nat | from <= t ensures PromptWithin(k, timeout, t, retries) {
      assert PromptAt(k, timeout, t);
    }
  }

  lemma {:induction false} SteadyLoop(k: Kernel, size: nat, have: nat, timeout: int, interval: nat, retries: nat, x: Transfer,
                                      prompt: nat)
    requires x.moved <= size <= have && size <= PLENTY && (x.moved == size ==> size == 0)
    requires x.clock <= prompt < x.clock + retries && PromptAt(k, timeout, prompt)
    requires forall t: nat | x.clock <= t <= prompt :: GoesOn(k(t), timeout)
    ensures var r := Loop(k, size, have, timeout, interval, retries, x);
      r.ret == r.moved == size && x.clock < r.clock <= prompt + 1
    decreases retries
  {
    assert GoesOn(k(x.clock), timeout);
    var step := Once(k, size, have, timeout, interval, x);
    if step.Retry? { SteadyLoop(k, size, have, timeout, interval, retries - 1, step.x, prompt); }
  }

  /** There every transfer gets through. */
  lemma SteadyRun(k: Kernel, size: nat, have: nat, timeout: int, maxRetries: nat, clock: nat)
    requires Steady(k, timeout, maxRetries, clock) && maxRetries > 0 && size <= have && size <= PLENTY
    ensures var r := Run(k, size, have, timeout, maxRetries, clock);
      r.ret == r.moved == size && clock < r.clock <= clock + maxRetries
  {
    assert PromptWithin(k, timeout, clock, maxRetries);
    var t: nat :| clock <= t < clock + maxRetries && PromptAt(k, timeout, t);
    SteadyLoop(k, size, have, timeout, Interval(timeout, maxRetries), maxRetries, Transfer(0, 0, clock, 0), t);
  }
}
