/** `Environment` and the event table as objects updated in place. A method that
    ends in a switch returns when control has gone to the other coroutine; it does
    to the fields what the step of the same name does to values. */
module SchedulerMachine {
  import C = Coroutine
  import E = EventLoop

  class Environment {
    var stack: seq<nat>
    var runtime: seq<C.Runtime>
    var context: map<nat, nat>
    const recycleStack: array<nat>
    var recycleTop: nat
    var contexts: nat
    var executing: nat
    var leaving: bool

    function Value(): C.Env
      reads this, recycleStack
    {
      C.Env(stack, runtime, context, if recycleTop <= recycleStack.Length then recycleStack[..recycleTop] else [],
            contexts, executing, leaving)
    }

    ghost predicate Valid()
      reads this, recycleStack
    {
      recycleStack.Length == C.RECYCLE_LIMIT && recycleTop <= recycleStack.Length && C.Inv(Value())
    }

    constructor ()
      ensures Valid() && fresh(recycleStack) && Value() == C.Initial()
    {
      stack, runtime, context := [C.MAIN], [C.Runtime(false, false)], map[C.MAIN := 0];
      recycleStack, recycleTop := new nat[C.RECYCLE_LIMIT], 0;
      contexts, executing, leaving := 1, 0, false;
    }

    method CreateCoroutine() returns (c: nat)
      requires Valid() && C.Allowed(Value(), C.Create)
      modifies this
      ensures Valid() && Value() == C.Step(old(Value()), C.Create) && c == |old(runtime)|
    {
      C.StepKeeps(Value(), C.Create);
      c := |runtime|;
      runtime := runtime + [C.Runtime(false, false)];
    }

    /** `reuse`. */
    method Reuse() returns (x: nat)
      requires 0 < recycleTop <= recycleStack.Length
      modifies `recycleTop
      ensures recycleTop == old(recycleTop) - 1 && x == C.Last(old(recycleStack[..recycleTop]))
      ensures recycleStack[..recycleTop] == old(recycleStack[..recycleTop - 1])
    {
      recycleTop := recycleTop - 1;
      x := recycleStack[recycleTop];
    }

    /** `recycle`. */
    method Recycle(x: nat)
      requires recycleTop < recycleStack.Length
      modifies `recycleTop, recycleStack
      ensures recycleTop == old(recycleTop) + 1
      ensures recycleStack[..recycleTop] == old(recycleStack[..recycleTop]) + [x]
    {
      recycleStack[recycleTop] := x;
      recycleTop := recycleTop + 1;
    }

    /** A context for a coroutine that has not started: reused, or a new one. */
    method Prepare(c: nat)
      requires recycleTop <= recycleStack.Length && c < |runtime|
      modifies this
      ensures recycleTop <= recycleStack.Length && Value() == C.Prepare(old(Value()), c)
    {
      if runtime[c].running { return; }
      var x;
      if recycleTop > 0 {
        x := Reuse();
      } else {
        x := contexts;
        contexts := contexts + 1;
      }
      context := context[c := x];
      runtime := runtime[c := C.Runtime(true, false)];
    }

    method Resume(c: nat)
      requires Valid() && C.Allowed(Value(), C.Resume(c))
      modifies this
      ensures Valid() && Value() == C.Step(old(Value()), C.Resume(c))
    {
      C.StepKeeps(Value(), C.Resume(c));
      if runtime[c].exit { return; }
      C.ResumeTarget(Value(), c);
      hide C.Inv;
      Prepare(c);
      stack := stack + [c];
      executing := context[c];
    }

    method Yield()
      requires Valid() && C.Allowed(Value(), C.Yield)
      modifies this
      ensures Valid() && Value() == C.Step(old(Value()), C.Yield)
    {
      C.StepKeeps(Value(), C.Yield);
      C.StackHasContexts(Value(), |stack| - 2);
      hide C.StackOk, C.ContextsOk, C.RuntimeOk, C.ExecutingOk;
      stack := stack[..|stack| - 1];
      executing := context[C.Last(stack)];
      leaving := false;
    }

    /** What `routineWrapper` does when the routine returns, before its `yield`. */
    method Finish()
      requires Valid() && C.Allowed(Value(), C.Finish)
      modifies this, recycleStack
      ensures Valid() && Value() == C.Step(old(Value()), C.Finish)
    {
      C.StepKeeps(Value(), C.Finish);
      C.StackHasContexts(Value(), |stack| - 1);
      hide C.StackOk, C.ContextsOk, C.RuntimeOk, C.ExecutingOk;
      var c := C.Last(stack);
      runtime := runtime[c := C.Runtime(!runtime[c].running, !runtime[c].exit)];
      leaving := true;
      if recycleTop != recycleStack.Length {
        Recycle(context[c]);
        context := context - {c};
      }
    }
  }

  /** The events one thread waits for. */
  class PollConfig {
    const env: Environment
    var events: E.Events
    var pending: seq<nat>

    function Value(): E.Loop
      reads this, env, env.recycleStack
    {
      E.Loop(env.Value(), events, pending)
    }

    ghost predicate Valid()
      reads this, env, env.recycleStack
    {
      env.Valid() && E.Inv(Value())
    }

    constructor ()
      ensures Valid() && fresh(env) && fresh(env.recycleStack) && Value() == E.Initial()
    {
      env := new Environment();
      events, pending := map[], [];
    }

    /** `addEvent`, for the current coroutine. */
    method AddEvent(fd: int, interest: E.Interest) returns (registered: bool)
      requires env.stack != []
      modifies `events
      ensures (events, registered) == E.AddEvent(old(events), fd, interest, C.Last(env.stack))
    {
      var newAdd := fd !in events;
      if newAdd { events := events[fd := E.Entry(map[interest := C.Last(env.stack)], {})]; }
      if interest in events[fd].mask {
        // The source would revert here, but a new entry asks for nothing yet.
        if newAdd { assert false; }
        return false;
      }
      events := events[fd := events[fd].(mask := events[fd].mask + {interest})];
      assert newAdd ==> events[fd] == E.Entry(map[interest := C.Last(env.stack)], {interest});
      assert newAdd ==> events == old(events)[fd := events[fd]];
      registered := true;
    }

    /** `read` and its like, once the first attempt found nothing. */
    method WaitFor(fd: int, interest: E.Interest)
      requires Valid() && E.Allowed(Value(), E.Wait(fd, interest))
      modifies this, env
      ensures Valid() && Value() == E.Next(old(Value()), E.Wait(fd, interest))
    {
      hide C.Inv, E.Partition;
      E.NextKeeps(Value(), E.Wait(fd, interest));
      var registered := AddEvent(fd, interest);
      if registered { env.Yield(); }
    }

    /** The first half of a round of `loop`: find, move the routines out, erase. */
    method Report(fd: int)
      requires Valid() && E.Allowed(Value(), E.Report(fd))
      modifies this
      ensures Valid() && Value() == E.Next(old(Value()), E.Report(fd))
    {
      hide C.Inv, E.Partition;
      E.NextKeeps(Value(), E.Report(fd));
      if fd !in events { return; }
      var routines := events[fd].slots;
      events := events - {fd};
      pending := pending + E.Filled(routines);
    }

    /** The second half: resume what was moved out. */
    method Wake()
      requires Valid() && E.Allowed(Value(), E.Wake) && E.Dispatching(Value()) && !env.leaving
      modifies this, env
      ensures Valid() && Value() == E.Next(old(Value()), E.Wake)
    {
      E.NextKeeps(Value(), E.Wake);
      E.WakeAllowed(Value());
      hide C.Inv, E.Partition;
      var c := pending[0];
      pending := pending[1..];
      env.Resume(c);
    }

    /** A coroutine started by the current one. */
    method Start(c: nat)
      requires Valid() && !env.leaving && E.Allowed(Value(), E.Start(c))
      modifies this, env
      ensures Valid() && Value() == E.Next(old(Value()), E.Start(c))
    {
      E.NextKeeps(Value(), E.Start(c));
      E.StartAllowed(Value(), c);
      hide C.Inv, E.Partition;
      env.Resume(c);
    }

    method Create() returns (c: nat)
      requires Valid() && E.Allowed(Value(), E.Create) && !env.leaving
      modifies env
      ensures Valid() && Value() == E.Next(old(Value()), E.Create) && c == |old(env.runtime)|
    {
      E.NextKeeps(Value(), E.Create);
      hide C.Inv, E.Partition;
      c := env.CreateCoroutine();
    }

    /** The current coroutine ends; it still executes. */
    method Finish()
      requires Valid() && E.Allowed(Value(), E.Finish) && !env.leaving
      modifies env, env.recycleStack
      ensures Valid() && Value() == E.Next(old(Value()), E.Finish)
    {
      E.NextKeeps(Value(), E.Finish);
      hide C.Inv, E.Partition;
      env.Finish();
    }

    /** The `yield` that closes `routineWrapper`. */
    method Leave()
      requires Valid() && E.Allowed(Value(), E.Leave) && env.leaving
      modifies env
      ensures Valid() && Value() == E.Next(old(Value()), E.Leave)
    {
      E.NextKeeps(Value(), E.Leave);
      C.LeaveAllowed(env.Value());
      hide C.Inv, E.Partition;
      env.Yield();
    }

    /** Whatever the current coroutine does next. */
    method Perform(op: E.Op)
      requires Valid() && E.Allowed(Value(), op)
      modifies this, env, env.recycleStack
      ensures Valid() && Value() == E.Next(old(Value()), op)
    {
      hide E.Inv, E.Next, C.Inv, E.OwnDescriptor;
      match op
      case Create => var _ := Create();
      case Start(c) => Start(c);
      case Wait(fd, interest) => WaitFor(fd, interest);
      case Finish => Finish();
      case Leave => Leave();
      case Report(fd) => Report(fd);
      case Wake => Wake();
    }

    method Play(acts: seq<E.Op>)
      requires Valid() && E.CanRun(Value(), acts)
      modifies this, env, env.recycleStack
      ensures Valid() && Value() == E.Run(old(Value()), acts)
    {
      hide E.Inv, E.Next, E.Allowed, C.Inv;
      ghost var goal := E.Run(Value(), acts);
      for i := 0 to |acts|
        invariant Valid() && E.CanRun(Value(), acts[i..]) && goal == E.Run(Value(), acts[i..])
      {
        assert acts[i..][0] == acts[i] && acts[i..][1..] == acts[i + 1..];
        Perform(acts[i]);
      }
    }

    /** `loop`, over any number of reports: take the entry out, resume whoever waited
        there, and go on when control is back. */
    method Loop(turns: seq<E.Turn>)
      requires Valid() && E.CanTurn(Value(), turns)
      modifies this, env, env.recycleStack
      ensures Valid() && Value() == E.Turns(old(Value()), turns)
    {
      hide E.Inv, E.Next, C.Inv, E.Run, E.CanRun;
      ghost var goal := E.Turns(Value(), turns);
      for i := 0 to |turns|
        invariant Valid() && E.CanTurn(Value(), turns[i..]) && goal == E.Turns(Value(), turns[i..])
      {
        assert turns[i..][0] == turns[i] && turns[i..][1..] == turns[i + 1..];
        ghost var start := Value();
        E.TurnSplits(start, turns[i].fd);
        Report(turns[i].fd);
        if pending != [] {
          Wake();
          Play(turns[i].acts);
        }
      }
    }
  }
}
