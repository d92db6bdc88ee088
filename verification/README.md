# Ninject.CoreContext bootstrap coordinator in Dafny

This project models `NinjectContext`, the write-once coordinator that
assembles a Ninject kernel for a whole process. Callers register module
types with `AddModule<T>`, switch on the auto-injection heuristic with
`WithAutoInjection`, and queue deferred actions with `Use`. The first
`Initialize` that completes does four things in order:

1. It builds one kernel from the registered modules, in registration order.
2. It adds the heuristic component when the toggle is set.
3. It calls every queued action against that kernel, in queue order.
4. It sets the `Initialized` flag.

From then on, `AddModule`, `WithAutoInjection` and `Initialize` do nothing.
`Use` still appends, but what it queues is never run.

The model has three modules:

- `ContextSpec` (`context_spec.dfy`) holds the state as a value: modules, toggle,
  use stack and flag. It adds two records the source does not keep: the log of
  action calls with the kernel each call received, and the number of kernels
  built. It has one function per operation. Their contracts give the no-op
  conditions, append-at-end, the de-duplication invariant and the ordered,
  exactly-once execution.
- `CoreContext` (`ninject_context.dfy`) holds the class `NinjectContext`. Its
  fields are the ones the source updates in place. Each method is proved
  against the `ContextSpec` function of the same name. `Initialize` keeps the
  source's `foreach` over the use stack as a `while` loop with invariants.
- `ContextTraces` (`context_traces.dfy`) covers whole sequences of calls. The
  lock serialises every operation except `Use`, which takes no lock. The model
  treats `Use` as atomic too, so any multi-threaded start-up reaches the
  context as one such sequence. The lemmas show that once initialized, the
  context is frozen. They show that a module type is never registered twice
  and that load order never changes. They also show what happens when the
  first `Initialize` call completes: exactly one kernel is built, and each
  action queued before it runs exactly once, in order.

Module types are an opaque key type `M` and deferred actions an opaque id type
`A`. The kernel is the value `Kernel(modules, autoInjection)`. Exceptions from
the collaborators become a `Fault` parameter of `Initialize`: either the kernel
constructor throws, or the action at a given position of the use stack throws.
On both paths the flag stays unset, because the source sets it only on its last
line. The model therefore shows what a retry does after an action threw: it
builds a second kernel and calls every queued action again from the first.
That includes the actions that had already run (`RetryAfterActionFault`).

## Model

| member | source | states |
|---|---|---|
| ContextSpec.HasModuleOfType | src/Ninject.CoreContext/NinjectContext.cs:97 | the duplicate check is true exactly when some registered module has the given concrete type |
| ContextSpec.AddModule | src/Ninject.CoreContext/NinjectContext.cs:89-103 | no change when initialized or when the type is already registered; otherwise the type is appended at the end and nothing else changes; never creates a duplicate type |
| ContextSpec.WithAutoInjection | src/Ninject.CoreContext/NinjectContext.cs:108-117 | afterwards the toggle is on exactly when it was on or the context is not initialized (so a repeat call and a call after Initialize change nothing); nothing else changes |
| ContextSpec.Use | src/Ninject.CoreContext/NinjectContext.cs:123-126 | the action is appended at the end of the use stack whatever the flag says, earlier entries keep their place, nothing else changes |
| ContextSpec.Initialize | src/Ninject.CoreContext/NinjectContext.cs:131-146 | when initialized: no kernel, no action, no change. Otherwise it never touches modules, toggle or use stack. On completion: exactly one kernel, built from the modules in order and with the heuristic iff the toggle is on; each queued action called once, in order, against it; the flag set. When the kernel constructor throws: nothing changes. When action i throws: one kernel, actions 0..i called, the flag stays unset |
| ContextTraces.InvariantAlwaysHolds | src/Ninject.CoreContext/NinjectContext.cs:97-100 | over any sequence of calls the module list never holds two modules of the same type, and an initialized context has built a kernel |
| ContextTraces.ModuleOrderKept | src/Ninject.CoreContext/NinjectContext.cs:100 | over any sequence of calls the earlier module list is a prefix of the later one: entries are only appended, never reordered or removed |
| ContextTraces.FrozenAfterInitialize | src/Ninject.CoreContext/NinjectContext.cs:89-146 | from an initialized context, any sequence of calls leaves the flag set and leaves the modules, toggle, action log and kernel count unchanged; only the use stack grows, by exactly the actions passed to Use, which never run |
| ContextTraces.ConfigureStep | src/Ninject.CoreContext/NinjectContext.cs:89-126 | one AddModule, WithAutoInjection or Use before initialization runs nothing, builds nothing, leaves the flag unset, and adds exactly its own argument to the modules, the toggle or the use stack |
| ContextTraces.ConfigureBeforeInitialize | src/Ninject.CoreContext/NinjectContext.cs:89-126 | before any Initialize, no kernel is built and no action runs; the use stack is the Use arguments in call order; the toggle is on iff WithAutoInjection was called; a type is registered iff AddModule was called with it |
| ContextTraces.InitializeRunsOnce | src/Ninject.CoreContext/NinjectContext.cs:131-146 | from a fresh context, when the first Initialize call completes (no earlier Initialize, failed or not), for any other calls before and after it: exactly one kernel is ever built; the action log is exactly the actions queued before it, each once, in order, with a kernel of the registered modules that has the heuristic iff WithAutoInjection came first; the flag is set; modules are distinct and are exactly the types passed to AddModule before it |
| ContextTraces.RetryAfterActionFault | src/Ninject.CoreContext/NinjectContext.cs:137-144 | after action i threw, the flag is unset; a retry completes, builds a second kernel, and calls actions 0..i a second time |
| ContextTraces.SameModuleFromManyThreads | src/Ninject.CoreContext/NinjectContext.cs:89-146 | any interleaving of AddModule of one type and Initialize, starting with an AddModule, ends with exactly that one module and one kernel |
| CoreContext.NinjectContext.constructor | src/Ninject.CoreContext/NinjectContext.cs:29-39 | a new context has no modules, the toggle off, an empty use stack, the flag unset, and nothing built or run |
| CoreContext.NinjectContext.Initialized | src/Ninject.CoreContext/NinjectContext.cs:45-52 | returns the current value of the flag |
| CoreContext.NinjectContext.Modules | src/Ninject.CoreContext/NinjectContext.cs:58-65 | returns the registered modules, in load order, without duplicate types |
| CoreContext.NinjectContext.AddModule | src/Ninject.CoreContext/NinjectContext.cs:89-103 | returns this context, and its new state is `ContextSpec.AddModule` of the old state; keeps the invariant |
| CoreContext.NinjectContext.WithAutoInjection | src/Ninject.CoreContext/NinjectContext.cs:108-117 | returns this context, and its new state is `ContextSpec.WithAutoInjection` of the old state |
| CoreContext.NinjectContext.Use | src/Ninject.CoreContext/NinjectContext.cs:123-126 | the new state is `ContextSpec.Use` of the old state |
| CoreContext.NinjectContext.Initialize | src/Ninject.CoreContext/NinjectContext.cs:131-146 | the new state and the outcome are `ContextSpec.Initialize` of the old state; the loop calls the queued actions one by one and stops after the one that throws |

## Left out

- The lock (`SyncRoot`) and the `Get()` singleton accessor. Every operation is treated as atomic on a single sequential context. Note that `Use` takes no lock in the source; calling it concurrently with another `Use` or with `Initialize` is a data race on the list, and the model does not cover that race.
- The flag `_initialized` is `static` in the source, so every instance shares it. The class has an implicit public constructor, so a second instance could be created; it would see the first one's flag while keeping its own modules and use stack. The model keeps the flag per object, which matches the single instance that `Get()` hands out.
- `new StandardKernel(...)` and `kernel.Components.Add<IInjectionHeuristic, AutoInjection>()` belong to the Ninject library, which is not part of this model. The kernel is the opaque value `Kernel(modules, autoInjection)`. Whether they throw is the `Fault` parameter. An exception from adding the heuristic component is not a separate case.
- `Activator.CreateInstance`: a module is its type key. The source creates an instance even when it then discards it as a duplicate. The model does not cover that instance's constructor side effects or exceptions.
- The `Modules` getter returns the live list in the source, so a caller could modify the registry without any check. The model returns the list as a value, so that aliasing is not captured.
- The `InjectTypes` getter and `AutoInjectionModule` only forward to the `AutoInjection` class, which is not part of this model. So the set of property-injected types is not modelled.
- The bodies of the deferred actions are opaque ids that get logged. An action that calls back into the context during `Initialize` is not modelled. Such a call could be `AddModule` (the lock is re-entrant and the flag is still unset), or `Use` (which modifies the list being enumerated).
