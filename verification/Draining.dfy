/** What a check makes of an abandoned reply (trpc/detail/Health.h:55-121), exactly and
    for every kernel: when its health becomes undefined, and when it passes. Reads that
    bring only part of what is left are followed by others. */
module Draining {
  import opened Framing
  import opened BestEffort
  import opened Connection
  import opened Alignment

  predicate InDrain(h: Health) { h.state.HeaderReadSome? || h.state.ContentReadSome? }

  /** What a round asks for. */
  function Wanted(h: Health): nat
    requires HealthOk(h) && InDrain(h)
  {
    if h.state.HeaderReadSome? then HEADER_SIZE - h.some else h.content - h.some
  }

  // --------------------------------------------- when the health becomes undefined

  /** The round's read moves nothing, or completes a header that announces more than
      the drain's buffer holds. */
  predicate Ends(w: World, d: Drain)
    requires DrainOk(w, d)
  {
    && InDrain(d.health)
    && var io := DrainIo(w, d, Wanted(d.health));
       || !io.Moved?
       || (d.health.state.HeaderReadSome? && io.n == Wanted(d.health)
           && ContentLength(Stored(d.buf, 0, Inbound(w, d.wire.out)[d.wire.consumed..d.wire.consumed + io.n])) > DRAIN_BUFFER)
  }

  lemma StepEndsExactly(w: World, d: Drain)
    requires DrainOk(w, d) && !d.health.state.Undefined?
    ensures DrainStep(w, d).health.state.Undefined? <==> Ends(w, d)
  {
    hide Inbound, ContentLength;
  }

  /** A drain after `n` rounds; one that is done or over does not move. */
  function After(w: World, d: Drain, n: nat): (e: Drain)
    requires DrainOk(w, d)
    ensures DrainOk(w, e)
    decreases n
  {
    if n == 0 then d else After(w, DrainStep(w, d), n - 1)
  }

  ghost predicate EndsAt(w: World, d: Drain, n: nat)
    requires DrainOk(w, d)
  {
    Ends(w, After(w, d, n))
  }

  lemma LaterEnds(w: World, d: Drain, n: nat)
    requires DrainOk(w, d)
    ensures EndsAt(w, d, n + 1) <==> EndsAt(w, DrainStep(w, d), n)
  {
    hide DrainStep, Ends, HealthOk, WireOk;
  }

  lemma {:induction false} LoopEndsExactly(w: World, d: Drain, countdown: nat)
    requires DrainOk(w, d) && !d.health.state.Undefined?
    ensures CheckLoop(w, d, countdown).1.health.state.Undefined? <==> exists n: nat | n < countdown :: EndsAt(w, d, n)
    decreases countdown
  {
    hide DrainStep, HealthOk, WireOk, EndsAt;
    if d.health.state.NoRead? {
      forall n: nat ensures !EndsAt(w, d, n) { DoneStays(w, d, n); }
    } else if countdown > 0 {
      var e := DrainStep(w, d);
      FirstEnds(w, d);
      if e.health.state.Undefined? {
        UndefinedLoop(w, e, countdown - 1);
      } else {
        LoopEndsExactly(w, e, countdown - 1);
        forall n: nat | n < countdown && EndsAt(w, d, n) ensures n > 0 && EndsAt(w, e, n - 1) {
          if n > 0 { LaterEnds(w, d, n - 1); }
        }
        forall n: nat | n < countdown - 1 && EndsAt(w, e, n) ensures n + 1 < countdown && EndsAt(w, d, n + 1) {
          LaterEnds(w, d, n);
        }
      }
    }
  }

  lemma FirstEnds(w: World, d: Drain)
    requires DrainOk(w, d) && !d.health.state.Undefined?
    ensures EndsAt(w, d, 0) <==> DrainStep(w, d).health.state.Undefined?
  {
    hide DrainStep, Ends, HealthOk, WireOk;
    StepEndsExactly(w, d);
  }

  lemma {:induction false} DoneStays(w: World, d: Drain, n: nat)
    requires DrainOk(w, d) && d.health.state.NoRead?
    ensures After(w, d, n) == d && !EndsAt(w, d, n)
    decreases n
  {
    hide Inbound;
    if n > 0 {
      assert DrainStep(w, d) == d;
      DoneStays(w, d, n - 1);
    }
  }

  /** A check makes the health undefined if and only if, in one of its five rounds, a
      read moves nothing or completes a header that announces too much. */
  lemma CheckEndsExactly(w: World, c: Client)
    requires ClientOk(w, c) && c.open && !c.health.state.Undefined?
    ensures Check(w, c).1.health.state.Undefined?
       <==> exists n: nat | n < DEATH_COUNTDOWN :: EndsAt(w, StartDrain(w, c), n)
  {
    hide CheckLoop, EndsAt, HealthOk, WireOk, Inbound;
    LoopEndsExactly(w, StartDrain(w, c), DEATH_COUNTDOWN);
    if c.health.state.NoRead? { NothingLeft(w, StartDrain(w, c), DEATH_COUNTDOWN); }
  }

  lemma NothingLeft(w: World, d: Drain, countdown: nat)
    requires DrainOk(w, d) && d.health.state.NoRead? && countdown > 0
    ensures CheckLoop(w, d, countdown) == (true, d)
  {
  }

  // ----------------------------------------------------------- when a check passes

  predicate Moves(a: Attempt) { a.io.Moved? && a.io.n > 0 }

  ghost predicate AllMove(k: Kernel, clock: nat, n: nat)
  {
    forall t: nat | clock <= t < clock + n :: Moves(k(t))
  }

  function Portion(a: Attempt): nat { if a.io.Moved? then a.io.n else 0 }

  /** What `n` reads from `clock` on bring. */
  function Brought(k: Kernel, clock: nat, n: nat): nat
    decreases n
  {
    if n == 0 then 0 else Portion(k(clock)) + Brought(k, clock + 1, n - 1)
  }

  /** `n` reads, each of which moves something, bring all that is left. */
  ghost predicate Brings(k: Kernel, clock: nat, n: nat, left: nat)
  {
    AllMove(k, clock, n) && Brought(k, clock, n) >= left
  }

  /** They leave something, and the read after them moves nothing. */
  ghost predicate DriesUp(k: Kernel, clock: nat, n: nat, left: nat)
  {
    AllMove(k, clock, n) && Brought(k, clock, n) < left && !Moves(k(clock + n))
  }

  /** A content of which `left` bytes are to be drained, and have arrived. */
  predicate ContentLeft(w: World, d: Drain, left: nat)
  {
    && DrainOk(w, d) && d.health.state.ContentReadSome? && left > 0 && left == d.health.content - d.health.some
    && left <= |Inbound(w, d.wire.out)| - d.wire.consumed
  }

  lemma ContentRound(w: World, d: Drain, left: nat)
    requires ContentLeft(w, d, left)
    ensures var e, a := DrainStep(w, d), w.kernel(d.wire.clock);
      && e.wire.clock == d.wire.clock + 1
      && if !Moves(a) then e.health.state.Undefined?
         else if a.io.n < left then ContentLeft(w, e, left - a.io.n) && e.wire.consumed == d.wire.consumed + a.io.n
         else e.health.state.NoRead? && e.wire.consumed == d.wire.consumed + left
  {
    hide Inbound;
  }

  /** Reads from the second on, seen from there. */
  ghost predicate SameLater(k: Kernel, clock: nat, n: nat, left: nat, first: nat)
    requires n > 0 && first <= left
  {
    && (Brings(k, clock, n, left) <==> Brings(k, clock + 1, n - 1, left - first))
    && (DriesUp(k, clock, n, left) <==> DriesUp(k, clock + 1, n - 1, left - first))
  }

  lemma FirstRead(k: Kernel, clock: nat, n: nat, left: nat)
    requires left > 0
    ensures !Brings(k, clock, 0, left)
    ensures DriesUp(k, clock, 0, left) <==> !Moves(k(clock))
    ensures Moves(k(clock)) && k(clock).io.n >= left ==> Brings(k, clock, 1, left) && !DriesUp(k, clock, n + 1, left)
    ensures !Moves(k(clock)) ==> !Brings(k, clock, n + 1, left) && !DriesUp(k, clock, n + 1, left)
    ensures Moves(k(clock)) && k(clock).io.n < left ==> SameLater(k, clock, n + 1, left, k(clock).io.n)
  {
    assert Brought(k, clock, 1) == Portion(k(clock)) + Brought(k, clock + 1, 0);
    assert k(clock + (n + 1)) == k((clock + 1) + n);
    if Moves(k(clock)) { assert AllMove(k, clock, n + 1) <==> AllMove(k, clock + 1, n); }
  }

  ghost predicate BringsWithin(k: Kernel, clock: nat, limit: nat, left: nat)
  {
    exists n: nat | n < limit :: Brings(k, clock, n, left)
  }

  ghost predicate DriesUpWithin(k: Kernel, clock: nat, limit: nat, left: nat)
  {
    exists n: nat | n < limit :: DriesUp(k, clock, n, left)
  }

  /** What the first read decides. */
  lemma FirstDecides(k: Kernel, clock: nat, limit: nat, left: nat)
    requires left > 0 && limit > 0
    ensures var a := k(clock);
      if !Moves(a) then !BringsWithin(k, clock, limit, left) && DriesUpWithin(k, clock, limit, left)
      else if a.io.n >= left then
        (BringsWithin(k, clock, limit, left) <==> limit > 1) && !DriesUpWithin(k, clock, limit, left)
      else
        && (BringsWithin(k, clock, limit, left) <==> BringsWithin(k, clock + 1, limit - 1, left - a.io.n))
        && (DriesUpWithin(k, clock, limit, left) <==> DriesUpWithin(k, clock + 1, limit - 1, left - a.io.n))
  {
    hide Brings, DriesUp;
    var a := k(clock);
    FirstRead(k, clock, 0, left);
    if Moves(a) && a.io.n < left {
      FirstIsPart(k, clock, limit, left);
    } else {
      forall n: nat | n > 0 ensures (!Moves(a) ==> !Brings(k, clock, n, left)) && (Moves(a) ==> !DriesUp(k, clock, n, left)) {
        FirstRead(k, clock, n - 1, left);
      }
    }
  }

  lemma FirstIsPart(k: Kernel, clock: nat, limit: nat, left: nat)
    requires limit > 0 && Moves(k(clock)) && k(clock).io.n < left
    ensures BringsWithin(k, clock, limit, left) <==> BringsWithin(k, clock + 1, limit - 1, left - k(clock).io.n)
    ensures DriesUpWithin(k, clock, limit, left) <==> DriesUpWithin(k, clock + 1, limit - 1, left - k(clock).io.n)
  {
    hide Brings, DriesUp;
    var rest, later := left - k(clock).io.n, clock + 1;
    FirstRead(k, clock, 0, left);
    forall n: nat | n < limit && Brings(k, clock, n, left) ensures n > 0 && Brings(k, later, n - 1, rest) {
      if n > 0 { FirstRead(k, clock, n - 1, left); }
    }
    forall n: nat | n < limit && DriesUp(k, clock, n, left) ensures n > 0 && DriesUp(k, later, n - 1, rest) {
      if n > 0 { FirstRead(k, clock, n - 1, left); }
    }
    forall n: nat | n < limit - 1 && Brings(k, later, n, rest) ensures n + 1 < limit && Brings(k, clock, n + 1, left) {
      FirstRead(k, clock, n, left);
    }
    forall n: nat | n < limit - 1 && DriesUp(k, later, n, rest) ensures n + 1 < limit && DriesUp(k, clock, n + 1, left) {
      FirstRead(k, clock, n, left);
    }
  }

  /** Exactly when the loop passes, and when it ends the connection. */
  lemma {:induction false} ContentLoopExactly(w: World, d: Drain, left: nat, countdown: nat)
    requires ContentLeft(w, d, left)
    ensures DrainOk(w, d)
    ensures var (healthy, e) := CheckLoop(w, d, countdown);
      && (healthy <==> BringsWithin(w.kernel, d.wire.clock, countdown, left))
      && (healthy ==> e.wire.consumed == d.wire.consumed + left)
      && (e.health.state.Undefined? <==> DriesUpWithin(w.kernel, d.wire.clock, countdown, left))
    decreases countdown
  {
    hide DrainStep, Brings, DriesUp, Inbound;
    if countdown > 0 {
      var a, e := w.kernel(d.wire.clock), DrainStep(w, d);
      ContentRound(w, d, left);
      hide BringsWithin, DriesUpWithin;
      FirstDecides(w.kernel, d.wire.clock, countdown, left);
      if !Moves(a) {
        UndefinedLoop(w, e, countdown - 1);
      } else if a.io.n >= left {
        if countdown > 1 { NothingLeft(w, e, countdown - 1); }
      } else {
        ContentLoopExactly(w, e, left - a.io.n, countdown - 1);
      }
    }
  }

  /** A check of a client that has abandoned a content, all of which has arrived,
      passes if and only if at most four reads, each of which moves something, bring
      all that is left; and ends the connection if and only if one of its five reads
      comes before that and moves nothing. */
  lemma ContentCheckExactly(w: World, c: Client)
    requires ClientOk(w, c) && c.open && c.health.state.ContentReadSome? && c.health.some < c.health.content
    requires c.health.content - c.health.some <= |Inbound(w, c.wire.out)| - c.wire.consumed
    ensures var (healthy, c') := Check(w, c); var left := c.health.content - c.health.some;
      && (healthy <==> exists n: nat | n <= 4 :: Brings(w.kernel, c.wire.clock, n, left))
      && (healthy ==> c'.wire.consumed == c.wire.consumed + left)
      && (c'.health.state.Undefined? <==> exists n: nat | n < 5 :: DriesUp(w.kernel, c.wire.clock, n, left))
  {
    hide CheckLoop, Brings, DriesUp, Inbound;
    ContentLoopExactly(w, StartDrain(w, c), c.health.content - c.health.some, DEATH_COUNTDOWN);
  }
}
