/**
 The NinjectContext class: the write-once bootstrap coordinator. Its fields
 are the ones the source updates in place; each method is specified by the
 function of the same name in ContextSpec applied to the state before the
 call. Module types are keys of type M, deferred actions ids of type A.
 */
module CoreContext {
  import opened ContextSpec

  class NinjectContext<M(==), A> {
    /** The registered modules, by concrete type, in registration order. */
    var modules: seq<M>
    /** Whether Initialize adds the auto-injection heuristic to the kernel. */
    var withAutoInjection: bool
    /** The deferred actions, in the order Use received them. */
    var useStack: seq<A>
    /** Set once Initialize has run to the end; never cleared. */
    var initialized: bool
    /** Every call of a deferred action so far, with the kernel it was given. */
    ghost var executed: seq<Invocation<M, A>>
    /** How many kernels have been constructed. */
    ghost var builds: nat

    /** The state of this context as a value. */
    ghost function Snapshot(): State<M, A>
      reads this
    {
      State(modules, withAutoInjection, useStack, initialized, executed, builds)
    }

    ghost predicate Valid()
      reads this
    {
      Invariant(Snapshot())
    }

    constructor ()
      ensures Valid() && Snapshot() == Fresh()
    {
      modules := [];
      withAutoInjection := false;
      useStack := [];
      initialized := false;
      executed := [];
      builds := 0;
    }

    /** The Initialized getter. */
    method Initialized() returns (r: bool)
      ensures r <==> Snapshot().initialized
    {
      r := initialized;
    }

    /** The Modules getter: the registered module types, in load order. */
    method Modules() returns (r: seq<M>)
      requires Valid()
      ensures r == Snapshot().modules && NoDuplicateTypes(r)
    {
      r := modules;
    }

    /** AddModule<T>: returns this context for chaining. */
    method AddModule(t: M) returns (self: NinjectContext<M, A>)
      requires Valid()
      modifies this
      ensures Valid() && self == this
      ensures Snapshot() == ContextSpec.AddModule(old(Snapshot()), t)
    {
      var isInitialized := Initialized();
      if isInitialized {
        return this;
      }
      if HasModuleOfType(modules, t) {
        return this;
      }
      modules := modules + [t];
      return this;
    }

    /** WithAutoInjection: returns this context for chaining. */
    method WithAutoInjection() returns (self: NinjectContext<M, A>)
      requires Valid()
      modifies this
      ensures Valid() && self == this
      ensures Snapshot() == ContextSpec.WithAutoInjection(old(Snapshot()))
    {
      var isInitialized := Initialized();
      if isInitialized {
        return this;
      }
      withAutoInjection := true;
      return this;
    }

    method Use(action: A)
      requires Valid()
      modifies this
      ensures Valid()
      ensures Snapshot() == ContextSpec.Use(old(Snapshot()), action)
    {
      useStack := useStack + [action];
    }

    /** Initialize. `fault` stands for what the kernel constructor and the
        deferred actions do; the result says whether the call returned at
        once, completed, or left by an exception. */
    method Initialize(fault: Fault) returns (outcome: Outcome)
      requires Valid()
      modifies this
      ensures Valid()
      ensures (Snapshot(), outcome) == ContextSpec.Initialize(old(Snapshot()), fault)
    {
      var isInitialized := Initialized();
      if isInitialized {
        return Skipped;
      }
      if fault.KernelFault? {
        return Threw;
      }
      var kernel := Kernel(modules, withAutoInjection);
      builds := builds + 1;
      var i := 0;
      while i < |useStack|
        invariant 0 <= i <= |useStack|
        invariant modules == old(modules) && withAutoInjection == old(withAutoInjection)
        invariant useStack == old(useStack) && !initialized && builds == old(builds) + 1
        invariant kernel == KernelOf(old(Snapshot()))
        invariant executed == old(executed) + Invocations(useStack[..i], kernel)
        invariant fault.ActionFault? ==> i <= fault.index
      {
        executed := executed + [Invocation(useStack[i], kernel)];
        assert Invocations(useStack[..i + 1], kernel) == Invocations(useStack[..i], kernel) + [Invocation(useStack[i], kernel)];
        if fault == ActionFault(i) {
          assert executed == old(executed) + Invocations(useStack[..fault.index + 1], kernel);
          return Threw;
        }
        i := i + 1;
      }
      assert useStack[..i] == useStack;
      initialized := true;
      return Completed;
    }
  }
}
