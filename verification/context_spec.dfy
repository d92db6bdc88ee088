/**
 The bootstrap coordinator of Ninject.CoreContext as values: the state a
 NinjectContext holds, and one function per public operation saying what
 that operation does to the state. The class in module CoreContext is
 specified by these functions; module ContextTraces proves what follows
 for whole sequences of calls.
 */
module ContextSpec {

  /** The kernel that Initialize constructs, kept opaque: the modules it was
      built from, in load order, and whether the auto-injection heuristic
      component was added to it. */
  datatype Kernel<M> = Kernel(modules: seq<M>, autoInjection: bool)

  /** One call of a deferred action, with the kernel it was handed. */
  datatype Invocation<M, A> = Invocation(action: A, kernel: Kernel<M>)

  /** What the collaborators do during one Initialize: nothing goes wrong,
      the kernel constructor throws, or the deferred action at position
      `index` of the use stack throws. */
  datatype Fault = NoFault | KernelFault | ActionFault(index: nat)

  /** How one Initialize ends: it returned at once because the context was
      already initialized, it ran to the end and set the flag, or an
      exception from a collaborator left it before the flag was set. */
  datatype Outcome = Skipped | Completed | Threw

  /** Everything a context holds. `modules` are the registered module types
      in registration order, `useStack` the deferred actions in the order
      they were queued. `executed` (every action call so far, with its
      kernel) and `builds` (how many kernels were constructed) are not
      fields of the source; they record what Initialize did. */
  datatype State<M, A> = State(
    modules: seq<M>,
    withAutoInjection: bool,
    useStack: seq<A>,
    initialized: bool,
    executed: seq<Invocation<M, A>>,
    builds: nat)

  /** A newly created context: nothing registered, nothing queued, not initialized. */
  function Fresh<M, A>(): State<M, A>
  {
    State([], false, [], false, [], 0)
  }

  /** No two registered modules have the same concrete type. */
  ghost predicate NoDuplicateTypes<M>(modules: seq<M>)
  {
    forall i, j :: 0 <= i < j < |modules| ==> modules[i] != modules[j]
  }

  /** What every reachable state satisfies. */
  ghost predicate Invariant<M, A>(s: State<M, A>)
  {
    && NoDuplicateTypes(s.modules)
    && (s.initialized ==> s.builds > 0)
  }

  /** The duplicate check of AddModule: is a module of type `t` registered? */
  function HasModuleOfType<M(==)>(modules: seq<M>, t: M): (r: bool)
    ensures r <==> exists i :: 0 <= i < |modules| && modules[i] == t
  {
    if modules == [] then false
    else modules[0] == t || HasModuleOfType(modules[1..], t)
  }

  /** AddModule<T>: register module type `t` unless the context is initialized
      or a module of that type is already registered. */
  function AddModule<M(==), A>(s: State<M, A>, t: M): (r: State<M, A>)
    ensures s.initialized ==> r == s
    ensures t in s.modules ==> r == s
    ensures !s.initialized && t !in s.modules ==> r.modules == s.modules + [t]
    ensures r == s.(modules := r.modules)
    ensures t in r.modules || s.initialized
    ensures NoDuplicateTypes(s.modules) ==> NoDuplicateTypes(r.modules)
  {
    if s.initialized then s
    else if HasModuleOfType(s.modules, t) then s
    else s.(modules := s.modules + [t])
  }

  /** WithAutoInjection: switch the heuristic on unless the context is initialized. */
  function WithAutoInjection<M, A>(s: State<M, A>): (r: State<M, A>)
    ensures r.withAutoInjection <==> s.withAutoInjection || !s.initialized
    ensures r == s.(withAutoInjection := r.withAutoInjection)
  {
    if s.initialized then s else s.(withAutoInjection := true)
  }

  /** Use: queue a deferred action, whether or not the context is initialized. */
  function Use<M, A>(s: State<M, A>, action: A): (r: State<M, A>)
    ensures |r.useStack| == |s.useStack| + 1 && r.useStack[|s.useStack|] == action
    ensures r.useStack[..|s.useStack|] == s.useStack
    ensures r == s.(useStack := r.useStack)
  {
    s.(useStack := s.useStack + [action])
  }

  /** The kernel Initialize builds from state `s`. */
  function KernelOf<M, A>(s: State<M, A>): Kernel<M>
  {
    Kernel(s.modules, s.withAutoInjection)
  }

  /** Calling each of `actions`, in order, against `kernel`. */
  function Invocations<M, A>(actions: seq<A>, kernel: Kernel<M>): seq<Invocation<M, A>>
  {
    seq(|actions|, i requires 0 <= i < |actions| => Invocation(actions[i], kernel))
  }

  /** Whether `fault` makes an Initialize over `queued` deferred actions throw. */
  predicate Raises(fault: Fault, queued: nat)
  {
    fault.KernelFault? || (fault.ActionFault? && fault.index < queued)
  }

  /** Initialize: on a context that is not initialized, build one kernel from
      the registered modules, add the heuristic when the toggle is set, call
      every queued action against it in order, and only then set the flag.
      An exception from a collaborator leaves the flag unset. */
  function Initialize<M, A>(s: State<M, A>, fault: Fault): (r: (State<M, A>, Outcome))
    // already initialized: nothing is built, nothing runs, nothing changes
    ensures s.initialized ==> r == (s, Skipped)
    // the configuration is never touched
    ensures r.0.modules == s.modules && r.0.withAutoInjection == s.withAutoInjection
    ensures r.0.useStack == s.useStack
    // the flag is set exactly when this call completes, and is never cleared
    ensures r.1 == Completed <==> !s.initialized && !Raises(fault, |s.useStack|)
    ensures r.0.initialized <==> s.initialized || r.1 == Completed
    ensures r.1 == Threw <==> !s.initialized && Raises(fault, |s.useStack|)
    // earlier action calls stay in the log; at most one kernel is built
    ensures s.executed <= r.0.executed
    ensures r.0.builds <= s.builds + 1
    // the kernel constructor threw: nothing was built and nothing ran
    ensures !s.initialized && fault.KernelFault? ==> r.0 == s
    // completed: one kernel, every queued action called once, in order, against it
    ensures r.1 == Completed ==>
      && r.0.builds == s.builds + 1
      && |r.0.executed| == |s.executed| + |s.useStack|
      && forall j :: 0 <= j < |s.useStack| ==>
           r.0.executed[|s.executed| + j] == Invocation(s.useStack[j], Kernel(s.modules, s.withAutoInjection))
    // action `index` threw: one kernel, the actions up to and including it were called
    ensures !s.initialized && fault.ActionFault? && fault.index < |s.useStack| ==>
      && r.0.builds == s.builds + 1
      && |r.0.executed| == |s.executed| + fault.index + 1
      && forall j :: 0 <= j <= fault.index ==>
           r.0.executed[|s.executed| + j] == Invocation(s.useStack[j], Kernel(s.modules, s.withAutoInjection))
  {
    if s.initialized then (s, Skipped)
    else if fault.KernelFault? then (s, Threw)
    else if fault.ActionFault? && fault.index < |s.useStack| then
      var called := Invocations(s.useStack[..fault.index + 1], KernelOf(s));
      (s.(executed := s.executed + called, builds := s.builds + 1), Threw)
    else
      var called := Invocations(s.useStack, KernelOf(s));
      (s.(executed := s.executed + called, builds := s.builds + 1, initialized := true), Completed)
  }
}
