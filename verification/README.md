# EventBus — a Dafny model

This project models `EventBus` (`src/eventBus.ts`), an in-process publish/subscribe
registry. The bus maps an event name to the ordered list of registrations made for
it. A registration is a handler plus the `thisArg` it is invoked on. The bus has
three operations:

- `on(eventName, handler, thisArg)` appends a registration;
- `emit(eventName, ...args)` calls every registered handler in order;
- `off(eventName, handler)` stores back a filtered copy of the list.

The registry is the value `Registry<H, C> = map<string, seq<Reg<H, C>>>`.
Handlers `H`, receivers `C` and payload values `A` are opaque type parameters.
`On` and `Off` are pure map updates. `Emit` returns the trace of calls it makes,
as a `seq<Call<H, C, A>>`, and leaves the registry unchanged (it returns no
registry). Dispatch walks the sequence fetched once when `emit` starts. Both `on`
and `off` store a fresh array rather than mutating the old one, so this is a
snapshot. A throwing handler is modelled by a parameter `raises: Call -> bool`.
`EmitRaising` then returns either `Returned(trace)` or `Threw(prefix, failedCall)`.

Files:

- `eventbus.dfy`, module `EventBus`: the data model and the three operations. It
  also holds the filter used by `off` and the corrected removal `OffIntended`.
- `laws.dfy`, module `EventBusLaws`: properties relating several operations.

**Where the code and its comment disagree.** The file's header comment
(`src/eventBus.ts:6`) says `off` removes the given listener. The code does not. At `src/eventBus.ts:48` the destructured
`handler` shadows the parameter, so the filter predicate is `handler !== handler`.
That is false for every registration, so `filter` keeps nothing. `off(e, f)`
therefore empties `e`'s list whatever `f` is. The model follows the code:
`EventBus.Off` applies exactly that predicate (`ShadowedKeep`), and its contract
proves the result is empty.

## Model

| member | source | states |
|---|---|---|
| EventBus.On | src/eventBus.ts:26-34 | `e`'s list becomes the old list (empty if the key was absent) with exactly one `{h, t}` appended at the end. The length grows by one, so nothing is deduplicated. `e` becomes a key, and every other key keeps its list. |
| EventBus.Invocations | src/eventBus.ts:39-42 | walking a list gives one call per registration, in order, each with that registration's handler and `thisArg` and the same `args` |
| EventBus.Emit | src/eventBus.ts:36-44 | an absent name invokes nothing. Otherwise the trace has one call per stored registration, and the i-th call uses the i-th registration's handler and receiver with the given payload. |
| EventBus.Dispatch | src/eventBus.ts:40-42 | calls are made in order until the first throwing one. The outcome is `Returned` exactly when no call throws, and then the trace is every call. Otherwise the completed trace is a proper prefix of the calls, none of which threw, and the failing call is the next one. |
| EventBus.EmitRaising | src/eventBus.ts:36-44 | emit with throwing handlers: an absent name returns with no calls. Emit returns normally exactly when no call in the full trace throws. On a throw, the completed calls are a prefix of the full trace, and none of them threw. The error comes from the call to the next registration, so it is the first throwing call. |
| EventBus.Filter | src/eventBus.ts:48 | `filter` keeps at most the input's elements. Every kept element is in the input and satisfies the predicate. Every input element satisfying the predicate is kept. |
| EventBus.FilterCount | src/eventBus.ts:48 | `filter` keeps each element that satisfies the predicate as many times as it occurs, and drops every occurrence of one that fails it |
| EventBus.FilterRejectingAll | src/eventBus.ts:48 | a predicate that no element satisfies, such as the shadowed `handler !== handler`, filters everything out |
| EventBus.FilterAppend | src/eventBus.ts:48 | filtering a concatenation is the concatenation of the filtered parts, so the filter keeps the original order |
| EventBus.FilterKeepingAll | src/eventBus.ts:48 | a predicate every element satisfies returns the list unchanged |
| EventBus.Off | src/eventBus.ts:46-50 | `off(e, f)` as written leaves `e` with an empty list for every `f`. An absent key is created with an empty list, and every other key keeps its list. |
| EventBus.OffIntended | src/eventBus.ts:46-50 | the evidently intended removal: the kept registrations are exactly those of `e` whose handler is not `f`, each as many times as it was registered, and none whose handler is `f`. The key is created if absent, and other keys are unchanged. |
| EventBusLaws.OnThenEmit | src/eventBus.ts:26-44 | after `on(e, h, t)`, emitting `e` makes the earlier calls and then one call to `h` on `t` at the end |
| EventBusLaws.OnTwiceInvokesTwice | src/eventBus.ts:32-33 | registering the same `(h, t)` twice stores two entries, and a later emit calls `h` twice |
| EventBusLaws.OtherEventUntouched | src/eventBus.ts:26-50 | `on`, `off` and the intended `off` under `x` do not change what emitting `y` invokes when `x != y` |
| EventBusLaws.OffIgnoresHandler | src/eventBus.ts:48 | as written, `off(e, f)` and `off(e, g)` give the same registry |
| EventBusLaws.OffIdempotent | src/eventBus.ts:48-49 | `off(e, f)` followed by `off(e, g)` gives the same registry as `off(e, f)` |
| EventBusLaws.OffSilences | src/eventBus.ts:38-49 | after `off(e, f)` the key `e` is present, yet emitting `e` invokes nothing, the same as on an empty registry |
| EventBusLaws.OffDropsOtherHandlers | src/eventBus.ts:48 | the defect: for `f != g`, `off(e, f)` after `on(e, g, t)` leaves no call to `g`, while the intended removal keeps the call to `g` |
| EventBusLaws.OnThenOffIntended | src/eventBus.ts:46-50 | the intended `off(e, f)` undoes an `on(e, f, t)`: the registry equals the one from removing `f` alone |
| EventBusLaws.OffIntendedKeepsLaterOn | src/eventBus.ts:46-50 | for `g != f`, the intended `off(e, f)` after `on(e, g, t)` equals `on(e, g, t)` after the intended `off(e, f)`: other handlers' registrations keep their place at the end |
| EventBusLaws.OffIntendedKeepsOthers | src/eventBus.ts:46-50 | the intended `off(e, f)` leaves a list that holds no registration of `f` exactly as it was, order included |
| EventBusLaws.OffIntendedSilencesHandler | src/eventBus.ts:46-50 | after the intended `off(e, f)`, no call in an emit of `e` goes to `f` |
| EventBusLaws.FirstThrowEndsDispatch | src/eventBus.ts:40-42 | if the i-th call is the first to throw, emit throws from that call, and the completed trace is exactly the first i calls. No later handler runs. |
| EventBusLaws.SaveScenario | src/eventBus.ts:26-44 | `on("save", save1, obj)`, `on("save", save2, obj)`, `emit("save", v)` calls `save1` then `save2`, both on `obj` with `[v]` |

## Left out

- The handler invocation itself (`handler.call(thisArg, ...args)`, `src/eventBus.ts:41`) is a foreign dynamic call. It appears only as a `Call` entry in the trace.
- Handler side effects are left out. So are re-entrant calls into the bus from inside a handler. Whether a handler throws is the `raises` parameter; it is a fixed function of the call, not of any state. Dispatch always walks the list fetched at the start of `emit`.
- The `any` payload is the type parameter `A`, with `args: seq<A>`. The `Function` and `Object` types are the opaque parameters `H` and `C`.
- Handler identity is Dafny equality, which is reflexive. A handler value for which JavaScript's `!==` is not reflexive (`NaN`, which `on` does not reject) would survive the shadowed filter. The model does not represent such values.
- The empty constructor (`src/eventBus.ts:20-22`) and the singleton export (`src/eventBus.ts:54`) are module plumbing with no behaviour. The model's registry is a value that starts as `map[]`.
- `emit` leaves the registry unchanged. This is not a separate contract: `Emit` returns only a trace, so it has no registry result that could differ.

## Findings

| source | as written | input that shows it | evidently intended | confidence | as-written member | corrected member |
|---|---|---|---|---|---|---|
| src/eventBus.ts:48 | the filter predicate `({ handler }) => handler !== handler` compares each registration's handler with itself, because the destructured name shadows the parameter. Nothing is kept. | `on("e", g, o); off("e", f)` with `f !== g`: `g` is removed and a later `emit("e")` calls nothing | keep each registration whose handler is not the `handler` passed to `off` | high; not executed | EventBusLaws.OffDropsOtherHandlers | EventBus.OffIntended |

`EventBus.Off` remains the model of what the bus does. The corrected `OffIntended`
carries the intended properties (`OnThenOffIntended`, `OffIntendedKeepsLaterOn`, `OffIntendedKeepsOthers`,
`OffIntendedSilencesHandler`, `OtherEventUntouched`).
