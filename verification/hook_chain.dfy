/**
  The before/after hook chain of the `crontab` package (pkg/crontab/hooks.go).

  A hook is an opaque callback, represented by an identifier; running a list
  of hooks is represented by the trace of calls it makes, in order.
*/
module HookChain {

  /** An opaque identifier standing for one `HookFunc` value. */
  type HookId = nat

  /** The job identifier every hook receives. */
  type JobId = string

  /** One hook invocation: which hook was called, with which job id. */
  datatype Call = Call(hook: HookId, job: JobId)

  /** The two ordered hook lists. */
  datatype Hooks = Hooks(before: seq<HookId>, after: seq<HookId>)

  /** The zero value of the Go struct: both lists empty. */
  const Empty: Hooks := Hooks([], [])

  /** Appends `hook` to the before list only. */
  function AddBeforeHook(h: Hooks, hook: HookId): (r: Hooks)
    ensures r.before == h.before + [hook]
    ensures r.after == h.after
  {
    h.(before := h.before + [hook])
  }

  /** Appends `hook` to the after list only. */
  function AddAfterHook(h: Hooks, hook: HookId): (r: Hooks)
    ensures r.after == h.after + [hook]
    ensures r.before == h.before
  {
    h.(after := h.after + [hook])
  }

  /**
    Reference definition of running a hook list: every hook, once, in list
    order, each with the same job id.
  */
  function Chain(hooks: seq<HookId>, id: JobId): (trace: seq<Call>)
    ensures |trace| == |hooks|
    ensures forall k :: 0 <= k < |hooks| ==> trace[k] == Call(hooks[k], id)
  {
    if hooks == [] then [] else [Call(hooks[0], id)] + Chain(hooks[1..], id)
  }

  /** The hooks a trace called, in call order. */
  function Called(trace: seq<Call>): (hooks: seq<HookId>)
    ensures |hooks| == |trace|
    ensures forall k :: 0 <= k < |trace| ==> hooks[k] == trace[k].hook
  {
    if trace == [] then [] else [trace[0].hook] + Called(trace[1..])
  }

  /** `RunBefore`: calls each before hook in order with `id`. */
  method RunBefore(h: Hooks, id: JobId) returns (trace: seq<Call>)
    ensures trace == Chain(h.before, id)
    ensures Called(trace) == h.before
    ensures forall c :: c in trace ==> c.job == id
  {
    trace := [];
    for i := 0 to |h.before|
      invariant |trace| == i
      invariant forall k :: 0 <= k < i ==> trace[k] == Call(h.before[k], id)
    {
      trace := trace + [Call(h.before[i], id)];
    }
  }

  /** `RunAfter`: calls each after hook in order with `id`. */
  method RunAfter(h: Hooks, id: JobId) returns (trace: seq<Call>)
    ensures trace == Chain(h.after, id)
    ensures Called(trace) == h.after
    ensures forall c :: c in trace ==> c.job == id
  {
    trace := [];
    for i := 0 to |h.after|
      invariant |trace| == i
      invariant forall k :: 0 <= k < i ==> trace[k] == Call(h.after[k], id)
    {
      trace := trace + [Call(h.after[i], id)];
    }
  }

  /** Running one list never calls a hook that occurs only in the other list. */
  lemma RunAfterCallsOnlyAfterHooks(h: Hooks, id: JobId)
    ensures forall c :: c in Chain(h.after, id) ==> c.hook in h.after
    ensures (forall x :: x in h.before ==> x !in h.after) ==>
              forall c :: c in Chain(h.after, id) ==> c.hook !in h.before
  {
  }

  /** Running a list with one more hook at the end: the old trace, then one call to the new hook. */
  lemma ChainSnoc(hooks: seq<HookId>, hook: HookId, id: JobId)
    ensures Chain(hooks + [hook], id) == Chain(hooks, id) + [Call(hook, id)]
  {
  }

  /**
    Adding a before hook extends the before run by exactly one call to the new
    hook, at the end, and leaves the after run as it was.
  */
  lemma AddBeforeThenRun(h: Hooks, hook: HookId, id: JobId)
    ensures Chain(AddBeforeHook(h, hook).before, id) == Chain(h.before, id) + [Call(hook, id)]
    ensures Chain(AddBeforeHook(h, hook).after, id) == Chain(h.after, id)
  {
  }

  /**
    Adding an after hook extends the after run by exactly one call to the new
    hook, at the end, and leaves the before run as it was.
  */
  lemma AddAfterThenRun(h: Hooks, hook: HookId, id: JobId)
    ensures Chain(AddAfterHook(h, hook).after, id) == Chain(h.after, id) + [Call(hook, id)]
    ensures Chain(AddAfterHook(h, hook).before, id) == Chain(h.before, id)
  {
  }

  /** One registration call against the hook lists. */
  datatype Registration = Before(hook: HookId) | After(hook: HookId)

  /** Performs one registration. */
  function Register(h: Hooks, reg: Registration): Hooks
  {
    match reg
    case Before(hook) => AddBeforeHook(h, hook)
    case After(hook) => AddAfterHook(h, hook)
  }

  /** Performs a sequence of registrations in order. */
  function RegisterAll(h: Hooks, regs: seq<Registration>): Hooks
    decreases |regs|
  {
    if regs == [] then h else RegisterAll(Register(h, regs[0]), regs[1..])
  }

  /** The hooks of the before registrations, in registration order. */
  function BeforeOnes(regs: seq<Registration>): seq<HookId>
  {
    if regs == [] then []
    else (if regs[0].Before? then [regs[0].hook] else []) + BeforeOnes(regs[1..])
  }

  /** The hooks of the after registrations, in registration order. */
  function AfterOnes(regs: seq<Registration>): seq<HookId>
  {
    if regs == [] then []
    else (if regs[0].After? then [regs[0].hook] else []) + AfterOnes(regs[1..])
  }

  /**
    Any interleaving of registrations leaves each list holding its own
    registrations, appended in the order they were made.
  */
  lemma {:induction false} RegisterAllAppends(h: Hooks, regs: seq<Registration>)
    ensures RegisterAll(h, regs).before == h.before + BeforeOnes(regs)
    ensures RegisterAll(h, regs).after == h.after + AfterOnes(regs)
    decreases |regs|
  {
    if regs != [] {
      var next := Register(h, regs[0]);
      RegisterAllAppends(next, regs[1..]);
      match regs[0]
      case Before(hook) =>
        assert next.before + BeforeOnes(regs[1..]) == h.before + BeforeOnes(regs);
      case After(hook) =>
        assert next.after + AfterOnes(regs[1..]) == h.after + AfterOnes(regs);
    }
  }

  /**
    Execution order is insertion order: starting from empty lists, running
    the before hooks calls exactly the before registrations, in the order they
    were made, and likewise for the after hooks.
  */
  lemma ExecutionOrderIsInsertionOrder(regs: seq<Registration>, id: JobId)
    ensures Called(Chain(RegisterAll(Empty, regs).before, id)) == BeforeOnes(regs)
    ensures Called(Chain(RegisterAll(Empty, regs).after, id)) == AfterOnes(regs)
  {
    RegisterAllAppends(Empty, regs);
    assert RegisterAll(Empty, regs).before == BeforeOnes(regs);
    assert RegisterAll(Empty, regs).after == AfterOnes(regs);
  }
}
