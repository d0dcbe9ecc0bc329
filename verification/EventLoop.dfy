/** Waiting for events and being woken (base/co/posix.h), on top of coroutines:
    what `addEvent` registers, and what one round of `loop` resumes.

    The convention of the file is that a coroutine keeps its file descriptors to
    itself. It is a hypothesis here, and `LostExactly` says what it buys. */
module EventLoop {
  import opened Coroutine

  /** `Event::Type`, in the order `loop` looks at the slots. */
  datatype Interest = Reading | Writing | Failing

  /** Who is resumed for a descriptor, and what the kernel was asked to report. */
  datatype Entry = Entry(slots: map<Interest, nat>, mask: set<Interest>)

  type Events = map<int, Entry>

  /** `pending`: those a round of `loop` has moved out and not resumed yet. */
  datatype Loop = Loop(env: Env, events: Events, pending: seq<nat>)

  /** `addEvent` for coroutine `c`: false when the interest is already there. The
      slot is filled only when the entry is new. */
  function AddEvent(events: Events, fd: int, interest: Interest, c: nat): (r: (Events, bool))
  {
    if fd !in events then (events[fd := Entry(map[interest := c], {interest})], true)
    else if interest in events[fd].mask then (events, false)
    else (events[fd := events[fd].(mask := events[fd].mask + {interest})], true)
  }

  /** The slots that are filled, in the order `loop` resumes them. */
  function Filled(slots: map<Interest, nat>): seq<nat>
  {
    (if Reading in slots then [slots[Reading]] else [])
    + (if Writing in slots then [slots[Writing]] else [])
    + (if Failing in slots then [slots[Failing]] else [])
  }

  // ---------------------------------------------------------------- invariant

  predicate InSlot(events: Events, fd: int, interest: Interest, c: nat)
  {
    fd in events && interest in events[fd].slots && events[fd].slots[interest] == c
  }

  ghost predicate Waits(events: Events, c: nat)
  {
    exists fd, interest :: InSlot(events, fd, interest, c)
  }

  ghost predicate Single(entry: Entry)
  {
    exists interest, c :: entry == Entry(map[interest := c], {interest})
  }

  ghost predicate OneSlotEach(events: Events)
  {
    && (forall fd | fd in events :: Single(events[fd]))
    && (forall fd, fd', interest, interest', c ::
          InSlot(events, fd, interest, c) && InSlot(events, fd', interest', c) ==> fd == fd' && interest == interest')
  }

  predicate Runs(runtime: seq<Runtime>, c: nat) { c < |runtime| && runtime[c].running }

  /** Every running coroutine is in exactly one place: once on the stack, in one
      slot of one descriptor, or being moved from there to the stack. */
  ghost predicate Partition(stack: seq<nat>, runtime: seq<Runtime>, events: Events, pending: seq<nat>)
  {
    && OneSlotEach(events) && |pending| <= 1
    && (forall c | Runs(runtime, c) :: c in stack || c in pending || Waits(events, c))
    && (forall fd, interest, c | InSlot(events, fd, interest, c) :: Runs(runtime, c) && c !in stack && c !in pending)
    && (forall c | c in pending :: Runs(runtime, c) && c !in stack)
  }

  ghost predicate Inv(l: Loop)
  {
    Coroutine.Inv(l.env) && Partition(l.env.stack, l.env.runtime, l.events, l.pending)
  }

  // -------------------------------------------------------------------- steps

  datatype Op = Create | Start(c: nat) | Wait(fd: int, interest: Interest) | Finish | Leave | Report(fd: int) | Wake

  /** Nobody but the current coroutine waits on the descriptor. */
  ghost predicate OwnDescriptor(l: Loop, fd: int)
    requires l.env.stack != []
  {
    forall interest, c | InSlot(l.events, fd, interest, c) :: c == Last(l.env.stack)
  }

  /** Main, in the middle of a round. */
  predicate Dispatching(l: Loop) { l.env.stack == [MAIN] && l.pending != [] }

  ghost predicate Allowed(l: Loop, op: Op)
    requires l.env.stack != []
  {
    if l.env.leaving then op == Leave
    else if Dispatching(l) then op == Wake
    else
      match op
      case Create => true
      case Start(c) => 0 < c < |l.env.runtime| && !l.env.runtime[c].running
      case Wait(fd, interest) => |l.env.stack| > 1 && OwnDescriptor(l, fd)
      case Finish => |l.env.stack| > 1
      case Report(fd) => l.env.stack == [MAIN]
      case _ => false
  }

  /** `co::read` and its like, once the first attempt found nothing. */
  function WaitFor(l: Loop, fd: int, interest: Interest): Loop
    requires Coroutine.Inv(l.env) && |l.env.stack| > 1
  {
    var (events, registered) := AddEvent(l.events, fd, interest, Last(l.env.stack));
    if registered then l.(env := Step(l.env, Yield), events := events) else l
  }

  /** `epoll_wait` reports a descriptor; the entry goes before anyone is resumed. */
  function Take(l: Loop, fd: int): Loop
  {
    if fd !in l.events then l
    else l.(events := l.events - {fd}, pending := l.pending + Filled(l.events[fd].slots))
  }

  ghost function Next(l: Loop, op: Op): Loop
    requires Inv(l) && Allowed(l, op)
  {
    match op
    case Create => l.(env := Step(l.env, Coroutine.Create))
    case Start(c) =>
      StartAllowed(l, c);
      l.(env := Step(l.env, Resume(c)))
    case Wait(fd, interest) => WaitFor(l, fd, interest)
    case Finish => l.(env := Step(l.env, Coroutine.Finish))
    case Leave => l.(env := Step(l.env, Yield))
    case Report(fd) => Take(l, fd)
    case Wake =>
      WakeAllowed(l);
      l.(env := Step(l.env, Resume(l.pending[0])), pending := l.pending[1..])
  }

  lemma StartAllowed(l: Loop, c: nat)
    requires Inv(l) && !l.env.leaving && 0 < c < |l.env.runtime| && !l.env.runtime[c].running
    ensures Coroutine.Allowed(l.env, Resume(c))
  {
  }

  lemma WakeAllowed(l: Loop)
    requires Inv(l) && !l.env.leaving && l.pending != []
    ensures Coroutine.Allowed(l.env, Resume(l.pending[0])) && l.env.runtime[l.pending[0]] == Runtime(true, false)
    ensures l.pending == [l.pending[0]]
  {
    var c := l.pending[0];
    assert c in l.pending && c != MAIN;
  }

  // ------------------------------------------------------ every step keeps it

  /** Under the convention a coroutine never finds an entry in its way. */
  lemma WaitsOnFreeDescriptor(l: Loop, fd: int)
    requires Inv(l) && |l.env.stack| > 1 && OwnDescriptor(l, fd)
    ensures fd !in l.events
  {
    assert Last(l.env.stack) in l.env.stack;
    if fd in l.events {
      var interest, c :| l.events[fd] == Entry(map[interest := c], {interest});
      assert InSlot(l.events, fd, interest, c);
    }
  }

  /** The current coroutine moves from the stack to a slot. */
  lemma WaitPartitions(stack: seq<nat>, runtime: seq<Runtime>, events: Events, pending: seq<nat>, fd: int, interest: Interest)
    requires Partition(stack, runtime, events, pending) && fd !in events && |stack| > 1
    requires forall i, j | 0 <= i < j < |stack| :: stack[i] != stack[j]
    requires Runs(runtime, Last(stack))
    ensures Partition(stack[..|stack| - 1], runtime, AddEvent(events, fd, interest, Last(stack)).0, pending)
  {
    var r, rest := Last(stack), stack[..|stack| - 1];
    var more := AddEvent(events, fd, interest, r).0;
    assert stack == rest + [r] && r in stack && r !in rest;
    assert Single(more[fd]) && InSlot(more, fd, interest, r);
    assert forall fd', interest', c :: InSlot(events, fd', interest', c) ==> InSlot(more, fd', interest', c);
    assert forall fd', interest', c :: InSlot(more, fd', interest', c) ==>
      InSlot(events, fd', interest', c) || (fd' == fd && interest' == interest && c == r);
  }

  lemma SingleFilled(interest: Interest, c: nat)
    ensures Filled(map[interest := c]) == [c]
  {
    match interest
    case Reading => assert Filled(map[interest := c]) == [c] + [] + [];
    case Writing => assert Filled(map[interest := c]) == [] + [c] + [];
    case Failing => assert Filled(map[interest := c]) == [] + [] + [c];
  }

  /** The waiter of a reported descriptor moves from its slot to `pending`. */
  lemma TakePartitions(stack: seq<nat>, runtime: seq<Runtime>, events: Events, fd: int)
    requires Partition(stack, runtime, events, []) && fd in events
    ensures Partition(stack, runtime, events - {fd}, Filled(events[fd].slots))
  {
    var interest, c :| events[fd] == Entry(map[interest := c], {interest});
    SingleFilled(interest, c);
    assert InSlot(events, fd, interest, c);
    var less := events - {fd};
    assert forall fd', interest', d :: InSlot(less, fd', interest', d) <==> InSlot(events, fd', interest', d) && fd' != fd;
  }

  /** It moves on to the stack. */
  lemma WakePartitions(stack: seq<nat>, runtime: seq<Runtime>, events: Events, c: nat)
    requires Partition(stack, runtime, events, [c])
    ensures Partition(stack + [c], runtime, events, [])
  {
    assert c in [c];
  }

  /** A coroutine starts, on top of the stack. */
  lemma StartPartitions(stack: seq<nat>, runtime: seq<Runtime>, events: Events, pending: seq<nat>, c: nat)
    requires Partition(stack, runtime, events, pending) && c < |runtime| && !runtime[c].running
    ensures Partition(stack + [c], runtime[c := Runtime(true, false)], events, pending)
  {
    var more := runtime[c := Runtime(true, false)];
    assert forall d :: Runs(more, d) <==> Runs(runtime, d) || d == c;
  }

  /** The current coroutine ends. */
  lemma FinishPartitions(stack: seq<nat>, runtime: seq<Runtime>, events: Events, pending: seq<nat>, c: nat)
    requires Partition(stack, runtime, events, pending) && c < |runtime| && c in stack
    ensures Partition(stack, runtime[c := Runtime(false, true)], events, pending)
  {
    var less := runtime[c := Runtime(false, true)];
    assert forall d :: Runs(less, d) <==> Runs(runtime, d) && d != c;
  }

  lemma LeavePartitions(stack: seq<nat>, runtime: seq<Runtime>, events: Events, pending: seq<nat>)
    requires Partition(stack, runtime, events, pending) && stack != [] && !Runs(runtime, Last(stack))
    ensures Partition(stack[..|stack| - 1], runtime, events, pending)
  {
    assert stack == stack[..|stack| - 1] + [Last(stack)];
  }

  lemma CreatePartitions(stack: seq<nat>, runtime: seq<Runtime>, events: Events, pending: seq<nat>)
    requires Partition(stack, runtime, events, pending)
    ensures Partition(stack, runtime + [Runtime(false, false)], events, pending)
  {
    assert forall d :: Runs(runtime + [Runtime(false, false)], d) <==> Runs(runtime, d);
  }

  /** Every step keeps the partition: no coroutine is ever lost or in two places. */
  lemma NextKeeps(l: Loop, op: Op)
    requires Inv(l) && Allowed(l, op)
    ensures Inv(Next(l, op))
  {
    hide Partition, ContextsOk, RuntimeOk, ExecutingOk, Filled;
    match op
    case Create =>
      StepKeeps(l.env, Coroutine.Create);
      CreatePartitions(l.env.stack, l.env.runtime, l.events, l.pending);
    case Start(c) =>
      StartAllowed(l, c);
      StepKeeps(l.env, Resume(c));
      StartPartitions(l.env.stack, l.env.runtime, l.events, l.pending, c);
    case Wait(fd, interest) =>
      StepKeeps(l.env, Yield);
      WaitsOnFreeDescriptor(l, fd);
      WaitPartitions(l.env.stack, l.env.runtime, l.events, l.pending, fd, interest);
    case Finish =>
      StepKeeps(l.env, Coroutine.Finish);
      FinishPartitions(l.env.stack, l.env.runtime, l.events, l.pending, Last(l.env.stack));
    case Leave =>
      StepKeeps(l.env, Yield);
      LeavePartitions(l.env.stack, l.env.runtime, l.events, l.pending);
    case Report(fd) =>
      if fd in l.events {
        assert [] + Filled(l.events[fd].slots) == Filled(l.events[fd].slots);
        TakePartitions(l.env.stack, l.env.runtime, l.events, fd);
      }
    case Wake =>
      WakeAllowed(l);
      StepKeeps(l.env, Resume(l.pending[0]));
      WakePartitions(l.env.stack, l.env.runtime, l.events, l.pending[0]);
      assert l.pending[1..] == [];
  }

  // --------------------------------------------------------------------- runs

  function Initial(): (l: Loop)
    ensures Inv(l)
  {
    Loop(Coroutine.Initial(), map[], [])
  }

  ghost predicate CanRun(l: Loop, ops: seq<Op>)
    requires Inv(l)
    decreases |ops|
  {
    ops == [] || (Allowed(l, ops[0]) && (NextKeeps(l, ops[0]); CanRun(Next(l, ops[0]), ops[1..])))
  }

  ghost function Run(l: Loop, ops: seq<Op>): (l': Loop)
    requires Inv(l) && CanRun(l, ops)
    ensures Inv(l')
    decreases |ops|
  {
    if ops == [] then l else
      NextKeeps(l, ops[0]);
      Run(Next(l, ops[0]), ops[1..])
  }

  /** Over every run under the convention, every running coroutine is in exactly
      one place: on the stack, in one slot of one descriptor, or on its way from
      there to the stack. */
  lemma EveryRunPartitions(ops: seq<Op>, c: nat)
    requires CanRun(Initial(), ops) && Runs(Run(Initial(), ops).env.runtime, c)
    ensures var l := Run(Initial(), ops);
      && (c in l.env.stack || c in l.pending || Waits(l.events, c))
      && !(c in l.env.stack && c in l.pending) && !(c in l.env.stack && Waits(l.events, c))
      && !(c in l.pending && Waits(l.events, c))
      && (forall fd, fd', interest, interest' ::
            InSlot(l.events, fd, interest, c) && InSlot(l.events, fd', interest', c) ==> fd == fd' && interest == interest')
  {
  }

  // ------------------------------------------------------------ being woken up

  /** Waiting registers the current coroutine and hands control down. */
  lemma WaitRegisters(l: Loop, fd: int, interest: Interest)
    requires Inv(l) && Allowed(l, Wait(fd, interest))
    ensures var l' := Next(l, Wait(fd, interest));
      && l'.events == l.events[fd := Entry(map[interest := Last(l.env.stack)], {interest})]
      && l'.env.stack == l.env.stack[..|l.env.stack| - 1] && l'.pending == l.pending
  {
    hide Partition;
    WaitsOnFreeDescriptor(l, fd);
  }

  lemma NextKeepsEntry(l: Loop, op: Op, fd: int)
    requires Inv(l) && Allowed(l, op) && fd in l.events && op != Report(fd)
    ensures fd in Next(l, op).events && Next(l, op).events[fd] == l.events[fd]
  {
    hide Partition, StackOk, ContextsOk, RuntimeOk, ExecutingOk, Filled, Step;
    if op.Wait? { WaitsOnFreeDescriptor(l, op.fd); }
  }

  /** No wakeup is lost: whoever waits on a descriptor waits there through every
      run in which it is not reported. */
  lemma {:induction false} NoLostWakeup(l: Loop, ops: seq<Op>, fd: int)
    requires Inv(l) && CanRun(l, ops) && fd in l.events && Report(fd) !in ops
    ensures fd in Run(l, ops).events && Run(l, ops).events[fd] == l.events[fd]
    decreases |ops|
  {
    hide Inv, Next;
    if ops != [] {
      NextKeeps(l, ops[0]);
      NextKeepsEntry(l, ops[0], fd);
      assert ops[0] in ops && forall op | op in ops[1..] :: op in ops;
      NoLostWakeup(Next(l, ops[0]), ops[1..], fd);
    }
  }

  /** A report erases the entry and leaves main one thing to do: resume exactly
      the coroutine that waits there, once, on the context it was suspended with. */
  lemma ReportWakes(l: Loop, fd: int, interest: Interest, c: nat)
    requires Inv(l) && Allowed(l, Report(fd)) && InSlot(l.events, fd, interest, c)
    ensures var t := Next(l, Report(fd));
      && Inv(t) && t.events == l.events - {fd}
      && (forall op :: Allowed(t, op) <==> op == Wake)
      && var r := Next(t, Wake);
        && Inv(r) && r.env.stack == [MAIN, c] && !r.env.leaving && r.pending == [] && r.events == l.events - {fd}
        && c in l.env.context && r.env.executing == l.env.context[c]
  {
    hide ContextsOk, ExecutingOk, Filled, OneSlotEach;
    var i, d :| l.events[fd] == Entry(map[i := d], {i}) by { SingleAt(l, fd); }
    SingleFilled(i, d);
    NextKeeps(l, Report(fd));
    var t := Next(l, Report(fd));
    assert t.pending == [c];
    NextKeeps(t, Wake);
    WakeAllowed(t);
    assert [MAIN] + [c] == [MAIN, c];
  }

  lemma SingleAt(l: Loop, fd: int)
    requires Inv(l) && fd in l.events
    ensures Single(l.events[fd])
  {
  }

  /** One step, with what it keeps. */
  ghost function Advance(l: Loop, op: Op): (l': Loop)
    requires Inv(l) && Allowed(l, op)
    ensures Inv(l')
  {
    NextKeeps(l, op);
    Next(l, op)
  }

  /** Once a report was dispatched: the coroutine that waited runs. */
  ghost function Woken(l: Loop, fd: int): (l': Loop)
    requires Inv(l) && Allowed(l, Report(fd)) && fd in l.events
    ensures Inv(l')
  {
    ReportResumes(l, fd);
    Advance(Advance(l, Report(fd)), Wake)
  }

  lemma ReportResumes(l: Loop, fd: int)
    requires Inv(l) && Allowed(l, Report(fd)) && fd in l.events
    ensures Allowed(Advance(l, Report(fd)), Wake)
  {
    hide Inv, Next;
    SingleAt(l, fd);
    var interest, c :| l.events[fd] == Entry(map[interest := c], {interest});
    ReportWakes(l, fd, interest, c);
  }

  /** A registration survives, because the entry was erased first: whatever the
      coroutine that was woken does before it waits again, on whatever descriptor,
      and whatever happens after, it is registered until that is reported. */
  lemma ReregistrationSurvives(l: Loop, fd: int, interest: Interest, c: nat, before: seq<Op>,
                               fd': int, again: Interest, after: seq<Op>)
    requires Inv(l) && Allowed(l, Report(fd)) && InSlot(l.events, fd, interest, c)
    requires CanRun(Woken(l, fd), before)
    requires var m := Run(Woken(l, fd), before);
      && Last(m.env.stack) == c && Allowed(m, Wait(fd', again))
      && CanRun(Advance(m, Wait(fd', again)), after) && Report(fd') !in after
    ensures Woken(l, fd).env.stack == [MAIN, c] && Woken(l, fd).events == l.events - {fd}
    ensures var m := Run(Woken(l, fd), before);
      var r := Run(Advance(m, Wait(fd', again)), after);
      InSlot(r.events, fd', again, c) && c !in r.env.stack && c !in r.pending
  {
    hide Inv, Next, Run, CanRun, Allowed;
    ReportWakes(l, fd, interest, c);
    var m := Run(Woken(l, fd), before);
    WaitRegisters(m, fd', again);
    var w := Advance(m, Wait(fd', again));
    NoLostWakeup(w, after, fd');
    var r := Run(w, after);
    SlotOf(r, fd', again, c);
  }

  lemma SlotOf(l: Loop, fd: int, interest: Interest, c: nat)
    requires Inv(l) && fd in l.events && l.events[fd] == Entry(map[interest := c], {interest})
    ensures InSlot(l.events, fd, interest, c) && c !in l.env.stack && c !in l.pending
  {
    assert InSlot(l.events, fd, interest, c);
  }

  // -------------------------------------------------------------------- rounds

  /** One round of `loop`: the descriptor reported, and what happens until control
      is back in main. */
  datatype Turn = Turn(fd: int, acts: seq<Op>)

  /** Main at the head of the loop. */
  predicate AtHead(l: Loop) { l.env.stack == [MAIN] && l.pending == [] && !l.env.leaving }

  ghost predicate CanTurn(l: Loop, turns: seq<Turn>)
    requires Inv(l)
    decreases |turns|
  {
    turns == [] ||
    var fd, acts := turns[0].fd, turns[0].acts;
    && AtHead(l)
    && if fd !in l.events then CanTurn(l, turns[1..])
       else CanRun(Woken(l, fd), acts) && CanTurn(Run(Woken(l, fd), acts), turns[1..])
  }

  ghost function Turns(l: Loop, turns: seq<Turn>): (l': Loop)
    requires Inv(l) && CanTurn(l, turns)
    ensures Inv(l')
    decreases |turns|
  {
    if turns == [] then l
    else if turns[0].fd !in l.events then Turns(l, turns[1..])
    else Turns(Run(Woken(l, turns[0].fd), turns[0].acts), turns[1..])
  }

  /** What the first half of a round leaves to the second. */
  lemma TurnSplits(l: Loop, fd: int)
    requires Inv(l) && AtHead(l)
    ensures Allowed(l, Report(fd))
    ensures fd !in l.events ==> Next(l, Report(fd)) == l
    ensures fd in l.events ==>
      var t := Next(l, Report(fd));
      t.pending != [] && Inv(t) && Allowed(t, Wake) && Next(t, Wake) == Woken(l, fd)
  {
    hide Partition, StackOk, ContextsOk, RuntimeOk, ExecutingOk;
    if fd in l.events { ReportResumes(l, fd); }
  }

  /** Any number of reports in two parts: first the one, then the other. */
  lemma {:induction false} TurnsAppend(l: Loop, a: seq<Turn>, b: seq<Turn>)
    requires Inv(l) && CanTurn(l, a + b)
    ensures CanTurn(l, a) && CanTurn(Turns(l, a), b)
    ensures Turns(l, a + b) == Turns(Turns(l, a), b)
    decreases |a|
  {
    hide Inv, Woken, Run, CanRun;
    if a == [] {
      assert a + b == b;
    } else {
      assert (a + b)[0] == a[0] && (a + b)[1..] == a[1..] + b;
      TurnsAppend(if a[0].fd !in l.events then l else Run(Woken(l, a[0].fd), a[0].acts), a[1..], b);
    }
  }

  /** One report of a registered descriptor is the steps of a run: the report, the
      wake-up, and what happens until control is back in main. Of any other it is
      nothing. */
  lemma OneTurn(l: Loop, turn: Turn)
    requires Inv(l) && CanTurn(l, [turn])
    ensures turn.fd !in l.events ==> Turns(l, [turn]) == l
    ensures turn.fd in l.events ==>
      CanRun(l, [Report(turn.fd), Wake] + turn.acts) && Turns(l, [turn]) == Run(l, [Report(turn.fd), Wake] + turn.acts)
  {
    hide Inv, Next, CanRun, Run;
    assert [turn][1..] == [];
    if turn.fd in l.events {
      TurnSplits(l, turn.fd);
      var ops, rest := [Report(turn.fd), Wake] + turn.acts, [Wake] + turn.acts;
      assert ops[0] == Report(turn.fd) && ops[1..] == rest && rest[0] == Wake && rest[1..] == turn.acts;
      RunOn(l, ops);
      RunOn(Next(l, Report(turn.fd)), rest);
    }
  }

  /** A run goes step by step. */
  lemma RunOn(l: Loop, ops: seq<Op>)
    requires Inv(l) && ops != [] && Allowed(l, ops[0])
    ensures Inv(Next(l, ops[0]))
    ensures CanRun(l, ops) <==> CanRun(Next(l, ops[0]), ops[1..])
    ensures CanRun(l, ops) ==> Run(l, ops) == Run(Next(l, ops[0]), ops[1..])
  {
    hide Inv, Next, Allowed;
    NextKeeps(l, ops[0]);
  }

  /** The loop before the i-th report. */
  ghost function Before(l: Loop, turns: seq<Turn>, i: nat): (b: Loop)
    requires Inv(l) && CanTurn(l, turns) && i <= |turns|
    ensures Inv(b) && CanTurn(b, turns[i..])
  {
    assert turns[..i] + turns[i..] == turns;
    TurnsAppend(l, turns[..i], turns[i..]);
    Turns(l, turns[..i])
  }

  lemma BeforeNext(l: Loop, turns: seq<Turn>, i: nat)
    requires Inv(l) && CanTurn(l, turns) && i < |turns|
    ensures CanTurn(Before(l, turns, i), [turns[i]])
    ensures Before(l, turns, i + 1) == Turns(Before(l, turns, i), [turns[i]])
  {
    hide Inv, Turns, CanTurn;
    assert turns[..i] + [turns[i]] == turns[..i + 1] && turns[..i + 1] + turns[i + 1..] == turns;
    assert turns[..i] + turns[i..] == turns;
    TurnsAppend(l, turns[..i + 1], turns[i + 1..]);
    TurnsAppend(l, turns[..i], [turns[i]]);
  }

  /** Main result for the loop: over any number of reports, whoever waits on the
      descriptor reported when its turn comes is resumed in that turn, on top of main
      and on its own context, and what it does then is done before the next report. */
  lemma EveryReportWakes(l: Loop, turns: seq<Turn>, i: nat, interest: Interest, c: nat)
    requires Inv(l) && CanTurn(l, turns) && i < |turns|
    requires InSlot(Before(l, turns, i).events, turns[i].fd, interest, c)
    ensures var b, fd := Before(l, turns, i), turns[i].fd;
      && AtHead(b) && Allowed(b, Report(fd))
      && Woken(b, fd).env.stack == [MAIN, c] && Woken(b, fd).events == b.events - {fd}
      && c in b.env.context && Woken(b, fd).env.executing == b.env.context[c]
      && CanRun(Woken(b, fd), turns[i].acts) && Before(l, turns, i + 1) == Run(Woken(b, fd), turns[i].acts)
  {
    hide Inv, Next, Run, CanRun;
    BeforeNext(l, turns, i);
    hide Before;
    var b, fd := Before(l, turns, i), turns[i].fd;
    assert [turns[i]][1..] == [];
    TurnSplits(b, fd);
    ReportWakes(b, fd, interest, c);
  }

  /** Nobody reports the descriptor in this turn, nor while it lasts. */
  ghost predicate Spares(turn: Turn, fd: int) { turn.fd != fd && Report(fd) !in turn.acts }

  /** Who waits on a descriptor waits until the first turn that reports it, whatever
      happens in the turns before. */
  lemma {:induction false} WaitsForItsTurn(l: Loop, turns: seq<Turn>, i: nat, fd: int)
    requires Inv(l) && CanTurn(l, turns) && i <= |turns| && fd in l.events
    requires forall j | 0 <= j < i :: Spares(turns[j], fd)
    ensures fd in Before(l, turns, i).events && Before(l, turns, i).events[fd] == l.events[fd]
    decreases i
  {
    hide Inv, Next, Run, CanRun, Before, CanTurn, Turns;
    if i == 0 {
      NothingBefore(l, turns);
    } else {
      WaitsForItsTurn(l, turns, i - 1, fd);
      BeforeNext(l, turns, i - 1);
      var b, turn := Before(l, turns, i - 1), turns[i - 1];
      assert Spares(turn, fd);
      OneTurn(b, turn);
      if turn.fd in b.events { NoLostWakeup(b, [Report(turn.fd), Wake] + turn.acts, fd); }
    }
  }

  lemma NothingBefore(l: Loop, turns: seq<Turn>)
    requires Inv(l) && CanTurn(l, turns)
    ensures Before(l, turns, 0) == l
  {
    hide Inv, CanTurn;
    assert turns[..0] == [];
  }

  /** So no coroutine is forgotten: one that waits on a descriptor now is resumed in
      the first turn that reports it. */
  lemma FirstReportWakes(l: Loop, turns: seq<Turn>, i: nat, fd: int, interest: Interest, c: nat)
    requires Inv(l) && CanTurn(l, turns) && i < |turns| && InSlot(l.events, fd, interest, c)
    requires turns[i].fd == fd && forall j | 0 <= j < i :: Spares(turns[j], fd)
    ensures var b := Before(l, turns, i);
      && Allowed(b, Report(fd)) && fd in b.events && Woken(b, fd).env.stack == [MAIN, c]
      && CanRun(Woken(b, fd), turns[i].acts) && Before(l, turns, i + 1) == Run(Woken(b, fd), turns[i].acts)
  {
    hide Inv, Next, Run, CanRun, Before, CanTurn, Allowed, Spares;
    WaitsForItsTurn(l, turns, i, fd);
    EveryReportWakes(l, turns, i, interest, c);
  }

  /** At the head of the loop nothing runs but main: every other running coroutine
      waits, in exactly one slot. */
  lemma HeadWaits(l: Loop, c: nat)
    requires Inv(l) && AtHead(l) && Runs(l.env.runtime, c)
    ensures Waits(l.events, c)
    ensures forall fd, fd', interest, interest' ::
      InSlot(l.events, fd, interest, c) && InSlot(l.events, fd', interest', c) ==> fd == fd' && interest == interest'
  {
    assert c != MAIN;
  }

  // ---------------------------------------------------- what the convention buys

  /** Runs, but nobody will ever resume it. */
  ghost predicate Lost(l: Loop, c: nat)
  {
    Runs(l.env.runtime, c) && c !in l.env.stack && c !in l.pending && !Waits(l.events, c)
  }

  /** Without the convention, exactly when waiting loses the coroutine: somebody is
      registered for the descriptor, with a different interest. */
  lemma LostExactly(l: Loop, fd: int, interest: Interest)
    requires Inv(l) && !l.env.leaving && |l.env.stack| > 1
    ensures Lost(WaitFor(l, fd, interest), Last(l.env.stack)) <==> fd in l.events && interest !in l.events[fd].mask
    ensures Inv(WaitFor(l, fd, interest)) <==> !(fd in l.events && interest !in l.events[fd].mask)
  {
    hide ContextsOk, RuntimeOk, ExecutingOk;
    var c, after := Last(l.env.stack), WaitFor(l, fd, interest);
    assert c in l.env.stack;
    StepKeeps(l.env, Yield);
    if fd !in l.events {
      WaitPartitions(l.env.stack, l.env.runtime, l.events, l.pending, fd, interest);
      assert InSlot(after.events, fd, interest, c);
    } else if interest !in l.events[fd].mask {
      assert forall fd', i, d :: InSlot(after.events, fd', i, d) <==> InSlot(l.events, fd', i, d);
      assert c !in after.env.stack;
    }
  }

  lemma {:induction false} OneMore(l: Loop, ops: seq<Op>, op: Op)
    requires Inv(l) && CanRun(l, ops) && Allowed(Run(l, ops), op)
    ensures CanRun(l, ops + [op]) && Run(l, ops + [op]) == Next(Run(l, ops), op)
    decreases |ops|
  {
    hide Inv, Next, Allowed;
    if ops == [] {
      NextKeeps(l, op);
      assert ([] + [op])[1..] == [];
      assert Run(Next(l, op), []) == Next(l, op);
    } else {
      assert (ops + [op])[0] == ops[0] && (ops + [op])[1..] == ops[1..] + [op];
      NextKeeps(l, ops[0]);
      OneMore(Next(l, ops[0]), ops[1..], op);
    }
  }

  /** What a step does when nothing is pending or leaving. */
  ghost predicate Quiet(l: Loop) { Inv(l) && !l.env.leaving && l.pending == [] }

  lemma QuietCreate(l: Loop)
    requires Quiet(l)
    ensures Allowed(l, Op.Create)
    ensures var t := Next(l, Op.Create);
      && Quiet(t) && t.env.stack == l.env.stack && t.env.runtime == l.env.runtime + [Runtime(false, false)]
      && t.events == l.events
  {
    hide Partition, ContextsOk, RuntimeOk, ExecutingOk;
    NextKeeps(l, Op.Create);
  }

  lemma QuietStart(l: Loop, c: nat)
    requires Quiet(l) && 0 < c < |l.env.runtime| && l.env.runtime[c] == Runtime(false, false)
    ensures Allowed(l, Start(c))
    ensures var t := Next(l, Start(c));
      && Quiet(t) && t.env.stack == l.env.stack + [c] && |t.env.runtime| == |l.env.runtime| && t.events == l.events
  {
    hide Partition, ContextsOk, RuntimeOk, ExecutingOk;
    NextKeeps(l, Start(c));
    StartAllowed(l, c);
  }

  lemma QuietWait(l: Loop, fd: int, interest: Interest)
    requires Quiet(l) && |l.env.stack| > 1 && fd !in l.events
    ensures Allowed(l, Wait(fd, interest))
    ensures var t := Next(l, Wait(fd, interest));
      && Quiet(t) && t.env.stack == l.env.stack[..|l.env.stack| - 1] && |t.env.runtime| == |l.env.runtime|
      && fd in t.events && t.events[fd].mask == {interest}
  {
    hide Partition, ContextsOk, RuntimeOk, ExecutingOk;
    assert Allowed(l, Wait(fd, interest));
    NextKeeps(l, Wait(fd, interest));
    WaitRegisters(l, fd, interest);
  }

  /** Some run from the start ends here. */
  ghost predicate Reachable(l: Loop)
  {
    exists ops: seq<Op> :: CanRun(Initial(), ops) && Run(Initial(), ops) == l
  }

  lemma ReachableNext(l: Loop, op: Op)
    requires Reachable(l) && Inv(l) && Allowed(l, op)
    ensures Reachable(Next(l, op))
  {
    hide Inv, Next, Allowed, CanRun, Run;
    var ops: seq<Op> :| CanRun(Initial(), ops) && Run(Initial(), ops) == l;
    OneMore(Initial(), ops, op);
  }

  lemma StartReachable()
    ensures Reachable(Initial())
  {
    assert CanRun(Initial(), []) && Run(Initial(), []) == Initial();
  }

  /** Main makes a coroutine and starts it. */
  lemma OneStarted(l: Loop) returns (t: Loop)
    requires Reachable(l) && Quiet(l) && l.env.stack == [MAIN]
    ensures Reachable(t) && Quiet(t) && t.env.stack == [MAIN, |l.env.runtime|] && t.events == l.events
  {
    assert Inv(l) && |l.env.runtime| > 0;
    hide Inv, Next, Allowed, Reachable;
    QuietCreate(l);
    ReachableNext(l, Op.Create);
    t := Next(l, Op.Create);
    QuietStart(t, |l.env.runtime|);
    ReachableNext(t, Start(|l.env.runtime|));
    t := Next(t, Start(|l.env.runtime|));
  }

  /** A coroutine waits to read from a descriptor, and a second one runs. */
  lemma TwoCoroutines(fd: int) returns (l: Loop)
    ensures Reachable(l) && Quiet(l) && |l.env.stack| > 1 && fd in l.events && l.events[fd].mask == {Reading}
  {
    StartReachable();
    assert Quiet(Initial()) && Initial().events == map[] && Initial().env.stack == [MAIN];
    hide Inv, Quiet, Next, Allowed, Initial, Reachable;
    l := OneStarted(Initial());
    QuietWait(l, fd, Reading);
    QuietInv(l);
    ReachableNext(l, Wait(fd, Reading));
    l := Next(l, Wait(fd, Reading));
    l := OneStarted(l);
  }

  lemma QuietInv(l: Loop)
    requires Quiet(l)
    ensures Inv(l)
  {
  }

  ghost predicate LosesAt(l: Loop, fd: int, interest: Interest)
  {
    Inv(l) && |l.env.stack| > 1 && Lost(WaitFor(l, fd, interest), Last(l.env.stack))
  }

  /** The convention is needed: a state can be reached under it in which the next
      wait, on a descriptor somebody else waits on, loses the coroutine. */
  lemma SharedDescriptorLoses(fd: int)
    ensures exists l: Loop :: Reachable(l) && LosesAt(l, fd, Writing)
  {
    hide Inv, Reachable, LosesAt;
    var l := TwoCoroutines(fd);
    WouldLose(l, fd, Writing);
  }

  lemma WouldLose(l: Loop, fd: int, interest: Interest)
    requires Quiet(l) && |l.env.stack| > 1 && fd in l.events && interest !in l.events[fd].mask
    ensures LosesAt(l, fd, interest)
  {
    hide Partition, StackOk, ContextsOk, RuntimeOk, ExecutingOk, WaitFor, Lost;
    LostExactly(l, fd, interest);
  }
}
