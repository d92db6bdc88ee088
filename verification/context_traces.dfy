/**
 Sequences of calls on one context. The lock of the source serialises every
 operation except Use, which takes no lock; the model treats Use as atomic
 too, so whatever several threads do reaches the context as one sequence of
 calls, and the lemmas here hold for every such sequence.
 */
module ContextTraces {
  import opened ContextSpec

  /** One public call on the context. */
  datatype Call<M, A> =
    | AddModuleCall(moduleType: M)
    | WithAutoInjectionCall
    | UseCall(action: A)
    | InitializeCall(fault: Fault)

  function Apply<M(==), A>(s: State<M, A>, call: Call<M, A>): State<M, A>
  {
    match call
    case AddModuleCall(t) => AddModule(s, t)
    case WithAutoInjectionCall => WithAutoInjection(s)
    case UseCall(a) => Use(s, a)
    case InitializeCall(f) => Initialize(s, f).0
  }

  /** The state after making `calls` one after the other, starting from `s`. */
  function Run<M(==), A>(s: State<M, A>, calls: seq<Call<M, A>>): State<M, A>
    decreases |calls|
  {
    if calls == [] then s else Run(Apply(s, calls[0]), calls[1..])
  }

  /** The actions passed to Use, in call order. */
  function QueuedActions<M, A>(calls: seq<Call<M, A>>): seq<A>
  {
    if calls == [] then []
    else (if calls[0].UseCall? then [calls[0].action] else []) + QueuedActions(calls[1..])
  }

  /** The module types passed to AddModule, in call order. */
  function AddedTypes<M, A>(calls: seq<Call<M, A>>): seq<M>
  {
    if calls == [] then []
    else (if calls[0].AddModuleCall? then [calls[0].moduleType] else []) + AddedTypes(calls[1..])
  }

  /** No call in `calls` is an Initialize. */
  predicate NoInitialize<M, A>(calls: seq<Call<M, A>>)
  {
    forall i :: 0 <= i < |calls| ==> !calls[i].InitializeCall?
  }

  lemma {:induction false} RunConcat<M, A>(s: State<M, A>, a: seq<Call<M, A>>, b: seq<Call<M, A>>)
    ensures Run(s, a + b) == Run(Run(s, a), b)
    decreases |a|
  {
    if a == [] {
      assert a + b == b;
    } else {
      assert (a + b)[0] == a[0];
      assert (a + b)[1..] == a[1..] + b;
      RunConcat(Apply(s, a[0]), a[1..], b);
    }
  }

  lemma {:induction false} AddedTypesConcat<M, A>(a: seq<Call<M, A>>, b: seq<Call<M, A>>)
    ensures AddedTypes(a + b) == AddedTypes(a) + AddedTypes(b)
    decreases |a|
  {
    if a == [] {
      assert a + b == b;
    } else {
      assert (a + b)[0] == a[0];
      assert (a + b)[1..] == a[1..] + b;
      AddedTypesConcat(a[1..], b);
    }
  }

  lemma {:induction false} QueuedActionsConcat<M, A>(a: seq<Call<M, A>>, b: seq<Call<M, A>>)
    ensures QueuedActions(a + b) == QueuedActions(a) + QueuedActions(b)
    decreases |a|
  {
    if a == [] {
      assert a + b == b;
    } else {
      assert (a + b)[0] == a[0];
      assert (a + b)[1..] == a[1..] + b;
      QueuedActionsConcat(a[1..], b);
    }
  }

  /** Every reachable state keeps the invariant, in particular no module type
      is ever registered twice. */
  lemma {:induction false} InvariantAlwaysHolds<M, A>(s: State<M, A>, calls: seq<Call<M, A>>)
    requires Invariant(s)
    ensures Invariant(Run(s, calls))
    decreases |calls|
  {
    if calls != [] {
      InvariantAlwaysHolds(Apply(s, calls[0]), calls[1..]);
    }
  }

  /** Registered modules are only ever appended: every earlier list is a
      prefix of every later one, so load order is fixed at registration. */
  lemma {:induction false} ModuleOrderKept<M, A>(s: State<M, A>, calls: seq<Call<M, A>>)
    ensures s.modules <= Run(s, calls).modules
    decreases |calls|
  {
    if calls != [] {
      ModuleOrderKept(Apply(s, calls[0]), calls[1..]);
    }
  }

  /** Once initialized, a context is frozen: no call changes its modules, its
      toggle or its flag, builds a kernel or runs an action; Use still
      appends, so what it queues is never executed. */
  lemma {:induction false} FrozenAfterInitialize<M, A>(s: State<M, A>, calls: seq<Call<M, A>>)
    requires s.initialized
    ensures Run(s, calls) == s.(useStack := s.useStack + QueuedActions(calls))
    decreases |calls|
  {
    if calls != [] {
      FrozenStep(s, calls[0]);
      FrozenAfterInitialize(Apply(s, calls[0]), calls[1..]);
      assert calls == [calls[0]] + calls[1..];
      QueuedActionsConcat([calls[0]], calls[1..]);
    }
  }

  /** One call on an initialized context. */
  lemma FrozenStep<M, A>(s: State<M, A>, call: Call<M, A>)
    requires s.initialized
    ensures Apply(s, call) == s.(useStack := s.useStack + QueuedActions([call]))
  {
    assert [call][1..] == [];
  }

  /** One configuration call (anything but Initialize) on a context that is
      not initialized. */
  lemma ConfigureStep<M, A>(s: State<M, A>, call: Call<M, A>)
    requires !s.initialized && !call.InitializeCall?
    ensures var r := Apply(s, call);
      && !r.initialized
      && r.executed == s.executed
      && r.builds == s.builds
      && r.useStack == s.useStack + QueuedActions([call])
      && (r.withAutoInjection <==> s.withAutoInjection || call == WithAutoInjectionCall)
      && forall t :: t in r.modules <==> t in s.modules || t in AddedTypes([call])
  {
    assert [call][1..] == [];
  }

  /** Before the first Initialize, nothing is built and nothing runs; the
      actions are queued in call order, the toggle is set exactly when
      WithAutoInjection was called, and a module type is registered exactly
      when AddModule was called with it. */
  lemma {:induction false} ConfigureBeforeInitialize<M, A>(s: State<M, A>, calls: seq<Call<M, A>>)
    requires !s.initialized
    requires NoInitialize(calls)
    ensures var r := Run(s, calls);
      && !r.initialized
      && r.executed == s.executed
      && r.builds == s.builds
      && r.useStack == s.useStack + QueuedActions(calls)
      && (r.withAutoInjection <==> s.withAutoInjection || WithAutoInjectionCall in calls)
      && forall t :: t in r.modules <==> t in s.modules || t in AddedTypes(calls)
    decreases |calls|
  {
    if calls != [] {
      var head, tail := calls[0], calls[1..];
      assert calls == [head] + tail;
      assert NoInitialize(tail) by {
        forall i | 0 <= i < |tail| ensures !tail[i].InitializeCall? {
          assert tail[i] == calls[i + 1];
        }
      }
      var next := Apply(s, head);
      ConfigureStep(s, head);
      ConfigureBeforeInitialize(next, tail);
      QueuedActionsConcat([head], tail);
      AddedTypesConcat([head], tail);
    }
  }

  /** The whole life of a context, from creation, when its first Initialize
      call completes (no Initialize came before it, not even a failed one):
      whatever else is called before and after, exactly one kernel is built,
      from the modules registered before it, in registration order and with the
      heuristic exactly when WithAutoInjection came first; it calls every
      action queued before it exactly once, in queue order, against that
      kernel, and no other action is ever called. */
  lemma InitializeRunsOnce<M, A>(calls: seq<Call<M, A>>, k: nat)
    requires k < |calls| && calls[k].InitializeCall?
    requires NoInitialize(calls[..k])
    requires !Raises(calls[k].fault, |QueuedActions(calls[..k])|)
    ensures var before := calls[..k];
      var r := Run(Fresh(), calls);
      var kernel := Kernel(r.modules, WithAutoInjectionCall in before);
      && r.initialized
      && r.builds == 1
      && r.executed == Invocations(QueuedActions(before), kernel)
      && r.useStack == QueuedActions(calls)
      && NoDuplicateTypes(r.modules)
      && (forall t :: t in r.modules <==> t in AddedTypes(before))
  {
    var before, after := calls[..k], calls[k + 1..];
    assert calls == before + ([calls[k]] + after);
    RunConcat(Fresh(), before, [calls[k]] + after);
    ConfigureFromFresh(before);
    CompleteThenAnything(Run(Fresh(), before), calls[k].fault, after);
    QueuedActionsConcat(before, [calls[k]] + after);
    QueuedActionsConcat([calls[k]], after);
  }

  /** The state reached from a fresh context by calls without Initialize. */
  lemma ConfigureFromFresh<M, A>(calls: seq<Call<M, A>>)
    requires NoInitialize(calls)
    ensures var p: State<M, A> := Run(Fresh(), calls);
      && !p.initialized
      && p.builds == 0
      && p.executed == []
      && p.useStack == QueuedActions(calls)
      && (p.withAutoInjection <==> WithAutoInjectionCall in calls)
      && Invariant(p)
      && forall t :: t in p.modules <==> t in AddedTypes(calls)
  {
    ConfigureBeforeInitialize(Fresh(), calls);
    InvariantAlwaysHolds(Fresh(), calls);
  }

  /** An Initialize that completes, followed by any calls at all. */
  lemma CompleteThenAnything<M, A>(p: State<M, A>, fault: Fault, after: seq<Call<M, A>>)
    requires !p.initialized && !Raises(fault, |p.useStack|)
    ensures var r := Run(p, [InitializeCall(fault)] + after);
      && r.initialized
      && r.builds == p.builds + 1
      && r.executed == p.executed + Invocations(p.useStack, KernelOf(p))
      && r.modules == p.modules
      && r.useStack == p.useStack + QueuedActions(after)
  {
    var calls := [InitializeCall(fault)] + after;
    assert calls[0] == InitializeCall(fault) && calls[1..] == after;
    FrozenAfterInitialize(Initialize(p, fault).0, after);
  }

  /** A failed Initialize can be repeated. When a deferred action threw, the
      retry builds a second kernel and calls every queued action again from
      the first, so those before the failing one run twice. */
  lemma RetryAfterActionFault<M, A>(s: State<M, A>, i: nat)
    requires !s.initialized && i < |s.useStack|
    ensures var failed := Initialize(s, ActionFault(i));
      var retried := Initialize(failed.0, NoFault);
      && failed.1 == Threw
      && retried.1 == Completed
      && retried.0.builds == s.builds + 2
      && retried.0.executed ==
           s.executed + Invocations(s.useStack[..i + 1], KernelOf(s)) + Invocations(s.useStack, KernelOf(s))
  {
  }

  /** The scenario of many threads each registering the same module type and
      then calling Initialize: however their calls interleave, the context
      ends with that one module and one kernel. */
  lemma SameModuleFromManyThreads<M, A>(t: M, calls: seq<Call<M, A>>, k: nat)
    requires k < |calls| && calls[k] == InitializeCall(NoFault)
    requires forall i :: 0 <= i < |calls| ==> calls[i] == AddModuleCall(t) || calls[i] == InitializeCall(NoFault)
    requires 0 < k && forall i :: 0 <= i < k ==> calls[i] == AddModuleCall(t)
    ensures Run(Fresh(), calls).modules == [t]
    ensures Run(Fresh(), calls).builds == 1
  {
    var before := calls[..k];
    InitializeRunsOnce(calls, k);
    var r := Run(Fresh(), calls);
    AddedTypesAll(before, t);
    assert t in AddedTypes(before) by {
      assert before == [before[0]] + before[1..];
      AddedTypesConcat([before[0]], before[1..]);
    }
    assert NoDuplicateTypes(r.modules);
    OnlyModule(r.modules, t);
  }

  /** A list without duplicates whose every entry is `t` is just [t]. */
  lemma OnlyModule<M>(modules: seq<M>, t: M)
    requires NoDuplicateTypes(modules) && t in modules
    requires forall u :: u in modules ==> u == t
    ensures modules == [t]
  {
    var last := modules[|modules| - 1];
    assert modules[0] in modules && last in modules;
    if |modules| > 1 {
      assert false;
    }
  }

  lemma {:induction false} AddedTypesAll<M, A>(calls: seq<Call<M, A>>, t: M)
    requires forall i :: 0 <= i < |calls| ==> calls[i] == AddModuleCall(t)
    ensures forall u :: u in AddedTypes(calls) ==> u == t
    decreases |calls|
  {
    if calls != [] {
      AddedTypesAll(calls[1..], t);
    }
  }
}
