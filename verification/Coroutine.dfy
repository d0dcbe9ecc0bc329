/** Coroutines and their environment (base/co/Coroutine.h) as a machine whose
    steps are what the running coroutine does next.

    A context, with its stack and saved registers, is an identity; a switch sets
    the context the processor executes on. The end of a coroutine is two steps,
    because between them it executes on a context it has already given away. */
module Coroutine {

  const MAIN: nat := 0
  const RECYCLE_LIMIT := 0xff

  /** The two bits of `State` in use. */
  datatype Runtime = Runtime(running: bool, exit: bool)

  /** `_cStack`; `_runtime` and `_context` of each coroutine made so far; the used
      part of `_recycleStack`; how many contexts were ever allocated; the context
      executing; and whether the current coroutine has ended but not left yet. */
  datatype Env = Env(stack: seq<nat>, runtime: seq<Runtime>, context: map<nat, nat>, recycled: seq<nat>,
                     contexts: nat, executing: nat, leaving: bool)

  function Last<T>(s: seq<T>): T
    requires s != []
  {
    s[|s| - 1]
  }

  // ---------------------------------------------------------------- invariant

  /** Main at the bottom, nobody twice, and whoever is on the stack runs, except a
      coroutine about to leave. */
  ghost predicate StackOk(stack: seq<nat>, runtime: seq<Runtime>, leaving: bool)
  {
    && stack != [] && stack[0] == MAIN
    && (forall i, j | 0 <= i < j < |stack| :: stack[i] != stack[j])
    && (forall i | 0 <= i < |stack| :: stack[i] < |runtime|)
    && (forall i | 0 < i < |stack| ::
          runtime[stack[i]] == if leaving && i == |stack| - 1 then Runtime(false, true) else Runtime(true, false))
    && (leaving ==> |stack| > 1)
  }

  /** No context has two owners, and none is owned and recycled. */
  ghost predicate ContextsOk(context: map<nat, nat>, recycled: seq<nat>, contexts: nat, coroutines: nat)
  {
    && (forall c | c in context :: c < coroutines && context[c] < contexts)
    && (forall c, d | c in context && d in context && context[c] == context[d] :: c == d)
    && (forall i | 0 <= i < |recycled| :: recycled[i] < contexts)
    && (forall i, j | 0 <= i < j < |recycled| :: recycled[i] != recycled[j])
    && (forall c, i | c in context && 0 <= i < |recycled| :: context[c] != recycled[i])
    && |recycled| <= RECYCLE_LIMIT
  }

  /** Who owns a context, by runtime: a running coroutine does, one that has not
      started does not. */
  ghost predicate RuntimeOk(runtime: seq<Runtime>, context: map<nat, nat>)
  {
    && |runtime| > 0 && runtime[MAIN] == Runtime(false, false) && MAIN in context
    && (forall c | 0 < c < |runtime| :: runtime[c].running ==> !runtime[c].exit && c in context)
    && (forall c | 0 < c < |runtime| :: !runtime[c].running && !runtime[c].exit ==> c !in context)
  }

  /** The processor is on the context of the current coroutine; on one that was
      just recycled only when that coroutine is leaving. */
  ghost predicate ExecutingOk(e: Env)
    requires e.stack != []
  {
    if Last(e.stack) in e.context then e.executing == e.context[Last(e.stack)]
    else e.leaving && e.recycled != [] && e.executing == Last(e.recycled)
  }

  ghost predicate Inv(e: Env)
  {
    && StackOk(e.stack, e.runtime, e.leaving) && ContextsOk(e.context, e.recycled, e.contexts, |e.runtime|)
    && RuntimeOk(e.runtime, e.context) && ExecutingOk(e)
  }

  /** The constructor of `Environment`: main is never marked as running. */
  function Initial(): (e: Env)
    ensures Inv(e)
  {
    Env([MAIN], [Runtime(false, false)], map[MAIN := 0], [], 1, 0, false)
  }

  // -------------------------------------------------------------------- steps

  datatype Op = Create | Resume(c: nat) | Yield | Finish

  /** What the code asks of its callers: nobody resumes main or a coroutine on the
      stack, main does not yield; and a coroutine that has ended leaves at once. */
  predicate Allowed(e: Env, op: Op)
  {
    match op
    case Create => !e.leaving
    case Resume(c) => !e.leaving && c < |e.runtime| && c !in e.stack
    case Yield => |e.stack| > 1
    case Finish => !e.leaving && |e.stack| > 1
  }

  /** `resume`, up to the switch: a coroutine not started yet gets a context. */
  function Prepare(e: Env, c: nat): Env
    requires c < |e.runtime|
  {
    if e.runtime[c].running then e
    else
      var runtime := e.runtime[c := Runtime(true, false)];
      if e.recycled != [] then
        e.(runtime := runtime, context := e.context[c := Last(e.recycled)], recycled := e.recycled[..|e.recycled| - 1])
      else
        e.(runtime := runtime, context := e.context[c := e.contexts], contexts := e.contexts + 1)
  }

  /** The end of `routineWrapper`, up to its `yield`. */
  function End(e: Env, c: nat): Env
    requires c < |e.runtime| && c in e.context
  {
    var flags := e.runtime[c];
    var toggled := e.(runtime := e.runtime[c := Runtime(!flags.running, !flags.exit)], leaving := true);
    if |e.recycled| == RECYCLE_LIMIT then toggled
    else toggled.(recycled := e.recycled + [e.context[c]], context := e.context - {c})
  }

  function Step(e: Env, op: Op): Env
    requires Inv(e) && Allowed(e, op)
  {
    match op
    case Create => e.(runtime := e.runtime + [Runtime(false, false)])
    case Resume(c) =>
      if e.runtime[c].exit then e
      else
        var p := Prepare(e, c);
        p.(stack := e.stack + [c], executing := p.context[c])
    case Yield =>
      var rest := e.stack[..|e.stack| - 1];
      StackHasContexts(e, |e.stack| - 2);
      e.(stack := rest, executing := e.context[Last(rest)], leaving := false)
    case Finish =>
      StackHasContexts(e, |e.stack| - 1);
      End(e, Last(e.stack))
  }

  lemma StackHasContexts(e: Env, i: nat)
    requires Inv(e) && i < |e.stack|
    ensures e.stack[i] in e.context || (e.leaving && i == |e.stack| - 1)
  {
    if i > 0 { assert e.stack[0] != e.stack[i]; }
  }

  lemma LeaveAllowed(e: Env)
    requires Inv(e) && e.leaving
    ensures Allowed(e, Yield)
  {
  }

  lemma ResumeTarget(e: Env, c: nat)
    requires Inv(e) && Allowed(e, Resume(c)) && !e.runtime[c].exit
    ensures c != MAIN && c in Prepare(e, c).context
  {
    assert e.stack[0] == MAIN;
  }

  /** Taking the top of the recycle stack. */
  lemma ReuseOwns(context: map<nat, nat>, recycled: seq<nat>, contexts: nat, coroutines: nat, c: nat)
    requires ContextsOk(context, recycled, contexts, coroutines) && recycled != [] && c < coroutines && c !in context
    ensures ContextsOk(context[c := Last(recycled)], recycled[..|recycled| - 1], contexts, coroutines)
  {
    var rest := recycled[..|recycled| - 1];
    assert forall i | 0 <= i < |rest| :: rest[i] == recycled[i];
  }

  lemma NewOwns(context: map<nat, nat>, recycled: seq<nat>, contexts: nat, coroutines: nat, c: nat)
    requires ContextsOk(context, recycled, contexts, coroutines) && c < coroutines && c !in context
    ensures ContextsOk(context[c := contexts], recycled, contexts + 1, coroutines)
  {
  }

  /** Giving a context up for reuse. */
  lemma RecycleOwns(context: map<nat, nat>, recycled: seq<nat>, contexts: nat, coroutines: nat, c: nat)
    requires ContextsOk(context, recycled, contexts, coroutines) && |recycled| < RECYCLE_LIMIT && c in context
    ensures ContextsOk(context - {c}, recycled + [context[c]], contexts, coroutines)
  {
    var rest, more := context - {c}, recycled + [context[c]];
    assert forall d | d in rest :: d in context && d != c && rest[d] == context[d];
    assert forall i | 0 <= i < |recycled| :: more[i] == recycled[i];
  }

  lemma PrepareKeeps(e: Env, c: nat)
    requires Inv(e) && Allowed(e, Resume(c)) && !e.runtime[c].exit
    ensures Inv(Step(e, Resume(c)))
  {
    hide ContextsOk, ExecutingOk;
    assert c != MAIN by { assert e.stack[0] == MAIN; }
    var after := Step(e, Resume(c));
    if !e.runtime[c].running {
      if e.recycled != [] {
        ReuseOwns(e.context, e.recycled, e.contexts, |e.runtime|, c);
      } else {
        NewOwns(e.context, e.recycled, e.contexts, |e.runtime|, c);
      }
    }
    assert RuntimeOk(after.runtime, after.context) by { hide StackOk; }
    assert StackOk(after.stack, after.runtime, after.leaving) by { hide RuntimeOk; }
    SwitchedTo(after);
  }

  lemma SwitchedTo(e: Env)
    requires e.stack != [] && Last(e.stack) in e.context && e.executing == e.context[Last(e.stack)]
    ensures ExecutingOk(e)
  {
  }

  lemma EndKeeps(e: Env)
    requires Inv(e) && Allowed(e, Finish)
    ensures Inv(Step(e, Finish))
  {
    StackHasContexts(e, |e.stack| - 1);
    hide ContextsOk;
    var c, after := Last(e.stack), Step(e, Finish);
    assert c != MAIN by { assert e.stack[0] != c; }
    if |e.recycled| < RECYCLE_LIMIT { RecycleOwns(e.context, e.recycled, e.contexts, |e.runtime|, c); }
    assert StackOk(after.stack, after.runtime, after.leaving) by { hide RuntimeOk; }
    assert RuntimeOk(after.runtime, after.context) by { hide StackOk; }
  }

  lemma CreateKeeps(e: Env)
    requires Inv(e) && Allowed(e, Create)
    ensures Inv(Step(e, Create))
  {
    assert |e.runtime| !in e.context;
  }

  /** Every step keeps the invariant: ownership stays single even while an ending
      coroutine executes on a context that is already up for reuse. */
  lemma StepKeeps(e: Env, op: Op)
    requires Inv(e) && Allowed(e, op)
    ensures Inv(Step(e, op))
  {
    hide ContextsOk, RuntimeOk;
    match op
    case Create => CreateKeeps(e);
    case Resume(c) => if !e.runtime[c].exit { PrepareKeeps(e, c); }
    case Yield => StackHasContexts(e, |e.stack| - 2);
    case Finish => EndKeeps(e);
  }

  /** The context of a coroutine that has ended and left is the next one handed out:
      a coroutine started then executes on it, and nothing is allocated. */
  lemma EndedContextIsNext(e: Env, c: nat)
    requires Inv(e) && Allowed(e, Finish) && |e.recycled| < RECYCLE_LIMIT
    requires 0 < c < |e.runtime| && e.runtime[c] == Runtime(false, false)
    ensures Last(e.stack) in e.context && Inv(Step(e, Finish)) && Allowed(Step(e, Finish), Yield)
    ensures Inv(Step(Step(e, Finish), Yield)) && Allowed(Step(Step(e, Finish), Yield), Resume(c))
    ensures var r := Step(Step(Step(e, Finish), Yield), Resume(c));
      && Last(r.stack) == c && r.executing == e.context[Last(e.stack)] && c in r.context && r.context[c] == r.executing
      && r.contexts == e.contexts && r.recycled == e.recycled
  {
    StackHasContexts(e, |e.stack| - 1);
    StepKeeps(e, Finish);
    LeaveAllowed(Step(e, Finish));
    StepKeeps(Step(e, Finish), Yield);
    hide ContextsOk, ExecutingOk;
    var left := Step(Step(e, Finish), Yield);
    assert c !in left.stack;
    assert left.recycled == e.recycled + [e.context[Last(e.stack)]];
    assert left.recycled[..|left.recycled| - 1] == e.recycled;
  }

  // --------------------------------------------------------------------- runs

  ghost predicate CanRun(e: Env, ops: seq<Op>)
    requires Inv(e)
    decreases |ops|
  {
    ops == [] || (Allowed(e, ops[0]) && (StepKeeps(e, ops[0]); CanRun(Step(e, ops[0]), ops[1..])))
  }

  ghost function Run(e: Env, ops: seq<Op>): (e': Env)
    requires Inv(e) && CanRun(e, ops)
    ensures Inv(e')
    decreases |ops|
  {
    if ops == [] then e else
      StepKeeps(e, ops[0]);
      Run(Step(e, ops[0]), ops[1..])
  }

  /** Over every run: main stays at the bottom, no context has two owners or is
      both owned and up for reuse, and the processor never executes on a context
      that belongs to a coroutine other than the current one. */
  lemma EveryRunOwnsOnce(ops: seq<Op>)
    requires CanRun(Initial(), ops)
    ensures var e := Run(Initial(), ops);
      && e.stack[0] == MAIN
      && (forall c, d | c in e.context && d in e.context && e.context[c] == e.context[d] :: c == d)
      && (forall c, i | c in e.context && 0 <= i < |e.recycled| :: e.context[c] != e.recycled[i])
      && (forall c | c in e.context && e.context[c] == e.executing :: c == Last(e.stack))
  {
  }

  // ------------------------------------------------------------------ runtime

  /** Fresh, running, ended. */
  function Age(r: Runtime): nat { if r.exit then 2 else if r.running then 1 else 0 }

  lemma StepAges(e: Env, op: Op, c: nat)
    requires Inv(e) && Allowed(e, op) && c < |e.runtime|
    ensures c < |Step(e, op).runtime|
    ensures Age(e.runtime[c]) <= Age(Step(e, op).runtime[c]) <= Age(e.runtime[c]) + 1
    ensures e.runtime[c].exit ==> Step(e, op).runtime[c] == e.runtime[c]
  {
    hide ContextsOk, ExecutingOk, RuntimeOk;
  }

  /** Over every run a coroutine goes only from fresh to running to ended, and an
      ended one never changes again. */
  lemma {:induction false} RunAges(e: Env, ops: seq<Op>, c: nat)
    requires Inv(e) && CanRun(e, ops) && c < |e.runtime|
    ensures c < |Run(e, ops).runtime|
    ensures Age(e.runtime[c]) <= Age(Run(e, ops).runtime[c])
    ensures e.runtime[c].exit ==> Run(e, ops).runtime[c] == e.runtime[c]
    decreases |ops|
  {
    hide Inv, Step;
    if ops != [] {
      StepKeeps(e, ops[0]);
      StepAges(e, ops[0], c);
      RunAges(Step(e, ops[0]), ops[1..], c);
    }
  }

  // ---------------------------------------------------------------- bracketing

  /** Control stays above the lowest `h` coroutines until the last step. */
  ghost predicate Above(e: Env, ops: seq<Op>, h: nat)
    requires Inv(e) && CanRun(e, ops)
    decreases |ops|
  {
    ops == [] || (|e.stack| > h && (StepKeeps(e, ops[0]); Above(Step(e, ops[0]), ops[1..], h)))
  }

  /** The lowest `h` coroutines and their contexts are the same. */
  ghost predicate SameBelow(e: Env, e': Env, h: nat)
  {
    && h <= |e.stack| && h <= |e'.stack| && e'.stack[..h] == e.stack[..h]
    && forall i | 0 <= i < h ::
         e.stack[i] in e.context && e.stack[i] in e'.context && e'.context[e.stack[i]] == e.context[e.stack[i]]
  }

  lemma StepBelow(e: Env, op: Op, h: nat)
    requires Inv(e) && Allowed(e, op) && 0 < h < |e.stack|
    ensures SameBelow(e, Step(e, op), h)
    ensures |Step(e, op).stack| == h ==> !Step(e, op).leaving
  {
    forall i | 0 <= i < h ensures e.stack[i] in e.context && e.stack[i] != Last(e.stack) { StackHasContexts(e, i); }
    hide ContextsOk, ExecutingOk, RuntimeOk;
    var e' := Step(e, op);
    assert e'.stack[..h] == e.stack[..h];
  }

  lemma SameBelowTransitive(a: Env, b: Env, c: Env, h: nat)
    requires SameBelow(a, b, h) && SameBelow(b, c, h)
    ensures SameBelow(a, c, h)
  {
    assert forall i | 0 <= i < h :: a.stack[i] == a.stack[..h][i] && b.stack[i] == b.stack[..h][i];
  }

  lemma {:induction false} RunBelow(e: Env, ops: seq<Op>, h: nat)
    requires Inv(e) && CanRun(e, ops) && Above(e, ops, h) && 0 < h < |e.stack|
    ensures h <= |Run(e, ops).stack| && SameBelow(e, Run(e, ops), h)
    ensures |Run(e, ops).stack| == h ==> !Run(e, ops).leaving
    decreases |ops|
  {
    hide Inv, Step, SameBelow;
    if ops == [] {
      Unmoved(e, h);
    } else {
      var e1 := Step(e, ops[0]);
      StepKeeps(e, ops[0]);
      StepBelow(e, ops[0], h);
      BelowHeight(e, e1, h);
      if |e1.stack| > h {
        RunBelow(e1, ops[1..], h);
        SameBelowTransitive(e, e1, Run(e1, ops[1..]), h);
        BelowHeight(e1, Run(e1, ops[1..]), h);
      } else {
        assert ops[1..] == [];
      }
    }
  }

  lemma BelowHeight(e: Env, e': Env, h: nat)
    requires SameBelow(e, e', h)
    ensures h <= |e'.stack|
  {
  }

  lemma Unmoved(e: Env, h: nat)
    requires Inv(e) && h < |e.stack|
    ensures SameBelow(e, e, h)
  {
    forall i | 0 <= i < h ensures e.stack[i] in e.context { StackHasContexts(e, i); }
  }

  /** Well-bracketed control: whatever happens in between, nested resumes
      included, when control comes back from a `resume` the stack is what it was
      and the processor is on the context it left. */
  lemma WellBracketed(e: Env, c: nat, ops: seq<Op>)
    requires Inv(e) && Allowed(e, Resume(c)) && !e.runtime[c].exit
    requires Inv(Step(e, Resume(c))) && CanRun(Step(e, Resume(c)), ops) && Above(Step(e, Resume(c)), ops, |e.stack|)
    requires |Run(Step(e, Resume(c)), ops).stack| == |e.stack|
    ensures var e' := Run(Step(e, Resume(c)), ops);
      e'.stack == e.stack && e'.executing == e.executing && !e'.leaving
  {
    hide ContextsOk, RuntimeOk, Above;
    var e1 := Step(e, Resume(c));
    var e2 := Run(e1, ops);
    RunBelow(e1, ops, |e.stack|);
    assert e1.stack[..|e.stack|] == e.stack && e2.stack[..|e.stack|] == e2.stack;
    var top := Last(e.stack);
    assert e1.stack[|e.stack| - 1] == top;
    assert top in e.context && e1.context[top] == e.context[top] by {
      StackHasContexts(e, |e.stack| - 1);
    }
  }

  // ----------------------------------------------------------- high-water mark

  ghost function Running(runtime: seq<Runtime>): set<nat>
  {
    set c | 0 <= c < |runtime| && runtime[c].running
  }

  function Max(a: nat, b: nat): nat { if a >= b then a else b }

  /** The most coroutines running at once in the states of a run. */
  ghost function Peak(e: Env, ops: seq<Op>): (p: nat)
    requires Inv(e) && CanRun(e, ops)
    ensures |Running(e.runtime)| <= p
    decreases |ops|
  {
    if ops == [] then |Running(e.runtime)|
    else
      StepKeeps(e, ops[0]);
      Max(|Running(e.runtime)|, Peak(Step(e, ops[0]), ops[1..]))
  }

  /** Contexts are with main, with running coroutines or up for reuse, nowhere
      else; and there are as many as `peak` running coroutines and main need. */
  ghost predicate Tidy(e: Env, peak: nat)
  {
    && e.context.Keys == {MAIN} + Running(e.runtime)
    && e.contexts == |e.context| + |e.recycled| == 1 + peak
    && |e.context| == 1 + |Running(e.runtime)|
  }

  lemma RunningAdded(runtime: seq<Runtime>, c: nat)
    requires c < |runtime| && !runtime[c].running
    ensures Running(runtime[c := Runtime(true, false)]) == Running(runtime) + {c}
    ensures |Running(runtime) + {c}| == |Running(runtime)| + 1
  {
  }

  lemma RunningRemoved(runtime: seq<Runtime>, c: nat)
    requires c < |runtime| && runtime[c].running
    ensures Running(runtime[c := Runtime(false, true)]) == Running(runtime) - {c}
    ensures |Running(runtime)| == |Running(runtime) - {c}| + 1
  {
  }

  lemma ContextAdded(context: map<nat, nat>, c: nat, x: nat)
    requires c !in context
    ensures context[c := x].Keys == context.Keys + {c} && |context[c := x]| == |context| + 1
  {
  }

  lemma ContextRemoved(context: map<nat, nat>, c: nat)
    requires c in context
    ensures (context - {c}).Keys == context.Keys - {c} && |context| == |context - {c}| + 1
  {
    ContextAdded(context - {c}, c, context[c]);
    assert (context - {c})[c := context[c]] == context;
  }

  lemma ResumeTidy(e: Env, c: nat, peak: nat)
    requires Inv(e) && Allowed(e, Resume(c)) && Tidy(e, peak)
    ensures var e' := Step(e, Resume(c)); Tidy(e', Max(peak, |Running(e'.runtime)|))
  {
    hide ContextsOk, ExecutingOk, Running;
    assert c != MAIN by { assert e.stack[0] == MAIN; }
    if e.runtime[c] == Runtime(false, false) {
      RunningAdded(e.runtime, c);
      ContextAdded(e.context, c, if e.recycled != [] then Last(e.recycled) else e.contexts);
    }
  }

  lemma EndTidy(e: Env, c: nat, peak: nat)
    requires Tidy(e, peak) && peak <= RECYCLE_LIMIT
    requires MAIN < c < |e.runtime| && c in e.context && e.runtime[c] == Runtime(true, false)
    ensures var e' := End(e, c); Tidy(e', Max(peak, |Running(e'.runtime)|))
  {
    hide Running;
    RunningRemoved(e.runtime, c);
    ContextRemoved(e.context, c);
    assert |e.recycled| < RECYCLE_LIMIT;
    assert ({MAIN} + Running(e.runtime)) - {c} == {MAIN} + (Running(e.runtime) - {c});
  }

  lemma FinishTidy(e: Env, peak: nat)
    requires Inv(e) && Allowed(e, Finish) && Tidy(e, peak) && peak <= RECYCLE_LIMIT
    ensures var e' := Step(e, Finish); Tidy(e', Max(peak, |Running(e'.runtime)|))
  {
    StackHasContexts(e, |e.stack| - 1);
    hide ContextsOk, RuntimeOk, ExecutingOk, Tidy, End;
    assert Last(e.stack) != MAIN by { assert e.stack[0] != Last(e.stack); }
    EndTidy(e, Last(e.stack), peak);
  }

  lemma StepTidy(e: Env, op: Op, peak: nat)
    requires Inv(e) && Allowed(e, op) && Tidy(e, peak) && peak <= RECYCLE_LIMIT
    ensures var e' := Step(e, op); Tidy(e', Max(peak, |Running(e'.runtime)|))
  {
    hide StackOk, ContextsOk, RuntimeOk, ExecutingOk;
    match op
    case Create => assert Running(Step(e, op).runtime) == Running(e.runtime);
    case Resume(c) => ResumeTidy(e, c, peak);
    case Yield => assert Running(Step(e, op).runtime) == Running(e.runtime);
    case Finish => FinishTidy(e, peak);
  }

  lemma {:induction false} RunTidy(e: Env, ops: seq<Op>, peak: nat)
    requires Inv(e) && CanRun(e, ops) && Tidy(e, peak) && peak <= RECYCLE_LIMIT && Peak(e, ops) <= RECYCLE_LIMIT
    ensures Tidy(Run(e, ops), Max(peak, Peak(e, ops)))
    decreases |ops|
  {
    hide Inv, Step, Tidy, Running;
    if ops == [] {
      AtLeastRunning(e, peak);
    } else {
      var e1 := Step(e, ops[0]);
      StepKeeps(e, ops[0]);
      StepTidy(e, ops[0], peak);
      AtLeastRunning(e, peak);
      RunTidy(e1, ops[1..], Max(peak, |Running(e1.runtime)|));
    }
  }

  lemma AtLeastRunning(e: Env, peak: nat)
    requires Tidy(e, peak)
    ensures |Running(e.runtime)| <= peak
  {
  }

  /** Reuse is optimal: as long as at most 255 coroutines are ever running at once,
      exactly as many contexts are allocated besides main's as ran at the peak. */
  lemma HighWaterMark(ops: seq<Op>)
    requires CanRun(Initial(), ops) && Peak(Initial(), ops) <= RECYCLE_LIMIT
    ensures Run(Initial(), ops).contexts == 1 + Peak(Initial(), ops)
  {
    assert Running(Initial().runtime) == {};
    RunTidy(Initial(), ops, 0);
  }
}
