/** A model of the in-memory publish/subscribe registry `EventBus`.

    The bus maps an event name to the ordered sequence of registrations made
    for it. Handlers (`H`), receivers (`C`) and payload values (`A`) are
    opaque to the bus, so they are type parameters. Invoking a handler is a
    foreign dynamic call; the model records it as a `Call` in a trace instead.
 */
module EventBus {

  /** One subscriber's interest in an event: the handler and the receiver
      it is invoked on. */
  datatype Reg<H, C> = Reg(handler: H, thisArg: C)

  /** The registry: event name to registrations, in registration order. */
  type Registry<H, C> = map<string, seq<Reg<H, C>>>

  /** One handler invocation made during dispatch: `handler` called with
      `thisArg` bound as its receiver and `args` as its argument list. */
  datatype Call<H, C, A> = Call(handler: H, thisArg: C, args: seq<A>)

  /** How an `emit` ended: every handler returned, or one of them threw
      after the calls in `trace` had returned. */
  datatype Outcome<H, C, A> =
    | Returned(trace: seq<Call<H, C, A>>)
    | Threw(trace: seq<Call<H, C, A>>, failed: Call<H, C, A>)

  /** The registrations stored under `e`; an absent key reads as none. */
  function Lookup<H, C>(reg: Registry<H, C>, e: string): seq<Reg<H, C>>
  {
    if e in reg then reg[e] else []
  }

  /** The call that dispatching `args` to registration `r` makes. */
  function Invoke<H, C, A>(r: Reg<H, C>, args: seq<A>): Call<H, C, A>
  {
    Call(r.handler, r.thisArg, args)
  }

  // ---------------------------------------------------------------------
  // on
  // ---------------------------------------------------------------------

  /** `on(e, h, t)`: append one registration at the end of `e`'s sequence,
      creating the key when it is absent. Nothing is deduplicated. */
  function On<H, C>(reg: Registry<H, C>, e: string, h: H, t: C): (r: Registry<H, C>)
    ensures r.Keys == reg.Keys + {e}
    ensures r[e] == Lookup(reg, e) + [Reg(h, t)]
    ensures |r[e]| == |Lookup(reg, e)| + 1
    ensures forall k :: k in reg && k != e ==> r[k] == reg[k]
  {
    var handlers := Lookup(reg, e);
    reg[e := handlers + [Reg(h, t)]]
  }

  // ---------------------------------------------------------------------
  // emit
  // ---------------------------------------------------------------------

  /** The calls made by walking `regs` in order with the same `args`. */
  function Invocations<H, C, A>(regs: seq<Reg<H, C>>, args: seq<A>): (t: seq<Call<H, C, A>>)
    ensures |t| == |regs|
    ensures forall i :: 0 <= i < |regs| ==>
              t[i].handler == regs[i].handler && t[i].thisArg == regs[i].thisArg && t[i].args == args
  {
    if regs == [] then [] else [Invoke(regs[0], args)] + Invocations(regs[1..], args)
  }

  /** `emit(e, ...args)` when every handler returns: the trace of calls, one
      per registration under `e`, in registration order. An absent key
      invokes nothing. The registry itself is not an output: emit leaves it
      as it was. */
  function Emit<H, C, A>(reg: Registry<H, C>, e: string, args: seq<A>): (t: seq<Call<H, C, A>>)
    ensures e !in reg ==> t == []
    ensures |t| == |Lookup(reg, e)|
    ensures forall i :: 0 <= i < |t| ==> t[i] == Invoke(Lookup(reg, e)[i], args)
  {
    if e in reg then
      // the sequence is fetched once; dispatch walks that snapshot
      var snapshot := reg[e];
      Invocations(snapshot, args)
    else
      []
  }

  /** Make the calls of `calls` in order until one of them throws; `raises`
      says which calls throw. Nothing catches the error, so the remaining
      calls are never made. */
  function Dispatch<H, C, A>(calls: seq<Call<H, C, A>>, raises: Call<H, C, A> -> bool): (o: Outcome<H, C, A>)
    ensures o.Returned? <==> forall i :: 0 <= i < |calls| ==> !raises(calls[i])
    ensures o.Returned? ==> o.trace == calls
    ensures o.Threw? ==>
              && |o.trace| < |calls|
              && o.trace == calls[..|o.trace|]
              && o.failed == calls[|o.trace|]
              && raises(o.failed)
    ensures forall i :: 0 <= i < |o.trace| ==> !raises(o.trace[i])
  {
    if calls == [] then
      Returned([])
    else if raises(calls[0]) then
      Threw([], calls[0])
    else
      match Dispatch(calls[1..], raises)
      case Returned(rest) => Returned([calls[0]] + rest)
      case Threw(rest, c) => Threw([calls[0]] + rest, c)
  }

  /** `emit(e, ...args)` with handlers that may throw. The completed calls
      are a prefix of the full trace, and the first throwing call ends the
      dispatch with the error escaping. */
  function EmitRaising<H, C, A>(reg: Registry<H, C>, e: string, args: seq<A>,
                                raises: Call<H, C, A> -> bool): (o: Outcome<H, C, A>)
    ensures e !in reg ==> o == Returned([])
    ensures o.Returned? <==> forall i :: 0 <= i < |Emit(reg, e, args)| ==> !raises(Emit(reg, e, args)[i])
    ensures o.Returned? ==> o.trace == Emit(reg, e, args)
    ensures o.Threw? ==>
              && |o.trace| < |Lookup(reg, e)|
              && o.trace == Emit(reg, e, args)[..|o.trace|]
              && o.failed == Invoke(Lookup(reg, e)[|o.trace|], args)
              && raises(o.failed)
    ensures forall i :: 0 <= i < |o.trace| ==> !raises(o.trace[i])
  {
    Dispatch(Emit(reg, e, args), raises)
  }

  // ---------------------------------------------------------------------
  // off
  // ---------------------------------------------------------------------

  /** The elements of `s` that satisfy `p`, in their original order. */
  function Filter<T>(s: seq<T>, p: T -> bool): (r: seq<T>)
    ensures |r| <= |s|
    ensures forall i :: 0 <= i < |r| ==> r[i] in s && p(r[i])
    ensures forall i :: 0 <= i < |s| && p(s[i]) ==> s[i] in r
  {
    if s == [] then []
    else if p(s[0]) then [s[0]] + Filter(s[1..], p)
    else Filter(s[1..], p)
  }

  /** `filter` keeps each element that satisfies the predicate as many times
      as it occurs, and drops every occurrence of one that does not. */
  lemma {:induction false} FilterCount<T>(s: seq<T>, p: T -> bool)
    ensures forall i :: 0 <= i < |s| ==>
              multiset(Filter(s, p))[s[i]] == if p(s[i]) then multiset(s)[s[i]] else 0
  {
    if s != [] {
      FilterCount(s[1..], p);
      var rest := Filter(s[1..], p);
      assert s == [s[0]] + s[1..];
      if s[0] !in s[1..] {
        assert s[0] !in rest;
      }
    }
  }

  /** A predicate no element satisfies filters everything out. */
  lemma {:induction false} FilterRejectingAll<T>(s: seq<T>, p: T -> bool)
    requires forall i :: 0 <= i < |s| ==> !p(s[i])
    ensures Filter(s, p) == []
  {
    if s != [] {
      FilterRejectingAll(s[1..], p);
    }
  }

  /** Filtering a concatenation filters each part. */
  lemma {:induction false} FilterAppend<T>(a: seq<T>, b: seq<T>, p: T -> bool)
    ensures Filter(a + b, p) == Filter(a, p) + Filter(b, p)
  {
    if a != [] {
      assert (a + b)[1..] == a[1..] + b;
      FilterAppend(a[1..], b, p);
    } else {
      assert a + b == b;
    }
  }

  /** A predicate every element satisfies keeps the sequence as it is. */
  lemma {:induction false} FilterKeepingAll<T>(s: seq<T>, p: T -> bool)
    requires forall i :: 0 <= i < |s| ==> p(s[i])
    ensures Filter(s, p) == s
  {
    if s != [] {
      FilterKeepingAll(s[1..], p);
    }
  }

  /** The predicate `off` passes to `filter`: the destructured
      `handler` shadows the parameter, so each registration's handler is
      compared with itself. */
  predicate ShadowedKeep<H(==), C>(x: Reg<H, C>)
  {
    x.handler != x.handler
  }

  /** `off(e, f)` as written: `e`'s sequence, or an empty one when the key is
      absent, is filtered through the shadowed predicate and stored back.
      The predicate is never true, so `e` ends with no registrations, whatever
      `f` is. The key is created when it was absent. */
  function Off<H(==), C>(reg: Registry<H, C>, e: string, f: H): (r: Registry<H, C>)
    ensures r.Keys == reg.Keys + {e}
    ensures r[e] == []
    ensures forall k :: k in reg && k != e ==> r[k] == reg[k]
  {
    if e in reg then FilterRejectingAll(reg[e], ShadowedKeep); reg[e := Filter(reg[e], ShadowedKeep)]
    else reg[e := []]
  }

  /** The predicate `off` evidently meant to filter with: keep a
      registration unless its handler is `f`. */
  function HandlerIsNot<H(==), C>(f: H): Reg<H, C> -> bool
  {
    (x: Reg<H, C>) => x.handler != f
  }

  /** The removal `off` is evidently meant to perform: drop exactly the
      registrations of `e` whose handler is `f`, keeping the others in order. */
  function OffIntended<H(==), C>(reg: Registry<H, C>, e: string, f: H): (r: Registry<H, C>)
    ensures r.Keys == reg.Keys + {e}
    ensures forall i :: 0 <= i < |r[e]| ==> r[e][i] in Lookup(reg, e) && r[e][i].handler != f
    ensures forall i :: 0 <= i < |Lookup(reg, e)| && Lookup(reg, e)[i].handler != f ==> Lookup(reg, e)[i] in r[e]
    ensures forall i :: 0 <= i < |Lookup(reg, e)| ==>
              multiset(r[e])[Lookup(reg, e)[i]]
                == if Lookup(reg, e)[i].handler != f then multiset(Lookup(reg, e))[Lookup(reg, e)[i]] else 0
    ensures forall k :: k in reg && k != e ==> r[k] == reg[k]
  {
    FilterCount(Lookup(reg, e), HandlerIsNot(f));
    reg[e := Filter(Lookup(reg, e), HandlerIsNot(f))]
  }
}
