/** Properties of the event bus that relate several operations. */
module EventBusLaws {
  import opened EventBus

  /** Registering and then emitting invokes the earlier registrations first
      and the new one last, with the same payload. */
  lemma OnThenEmit<H, C, A>(reg: Registry<H, C>, e: string, h: H, t: C, args: seq<A>)
    ensures Emit(On(reg, e, h, t), e, args) == Emit(reg, e, args) + [Call(h, t, args)]
  {
  }

  /** No deduplication: the same handler and receiver registered twice is
      invoked twice, one call after the other. */
  lemma OnTwiceInvokesTwice<H, C, A>(reg: Registry<H, C>, e: string, h: H, t: C, args: seq<A>)
    ensures Emit(On(On(reg, e, h, t), e, h, t), e, args)
              == Emit(reg, e, args) + [Call(h, t, args), Call(h, t, args)]
    ensures |Lookup(On(On(reg, e, h, t), e, h, t), e)| == |Lookup(reg, e)| + 2
  {
  }

  /** Registering or removing under `x` does not change what emitting `y`
      invokes when the names differ: no cross-event leakage. */
  lemma OtherEventUntouched<H, C, A>(reg: Registry<H, C>, x: string, y: string, h: H, t: C, args: seq<A>)
    requires x != y
    ensures Emit(On(reg, x, h, t), y, args) == Emit(reg, y, args)
    ensures Emit(Off(reg, x, h), y, args) == Emit(reg, y, args)
    ensures Emit(OffIntended(reg, x, h), y, args) == Emit(reg, y, args)
  {
  }

  /** As written, `off` ignores its handler argument. */
  lemma OffIgnoresHandler<H, C>(reg: Registry<H, C>, e: string, f: H, g: H)
    ensures Off(reg, e, f) == Off(reg, e, g)
  {
  }

  /** A second `off` of the same name, for any handler, changes nothing. */
  lemma OffIdempotent<H, C>(reg: Registry<H, C>, e: string, f: H, g: H)
    ensures Off(Off(reg, e, f), e, g) == Off(reg, e, f)
  {
  }

  /** After `off(e, f)` an emit of `e` invokes nothing, exactly as for a name
      that was never registered, although `off` leaves the key in place. */
  lemma OffSilences<H, C, A>(reg: Registry<H, C>, e: string, f: H, args: seq<A>)
    ensures e in Off(reg, e, f)
    ensures Emit(Off(reg, e, f), e, args) == []
    ensures Emit(Off(reg, e, f), e, args) == Emit(map[], e, args)
  {
  }

  /** The `off` defect: with two different handlers `f` and `g`, removing `f`
      also removes `g`'s registration, which the intended removal keeps. */
  lemma OffDropsOtherHandlers<H, C, A>(reg: Registry<H, C>, e: string, f: H, g: H, t: C, args: seq<A>)
    requires f != g
    ensures Emit(Off(On(reg, e, g, t), e, f), e, args) == []
    ensures Call(g, t, args) in Emit(OffIntended(On(reg, e, g, t), e, f), e, args)
  {
    var regs := Lookup(On(reg, e, g, t), e);
    assert regs[|regs| - 1] == Reg(g, t);
    var kept := Lookup(OffIntended(On(reg, e, g, t), e, f), e);
    assert Reg(g, t) in kept;
    var i :| 0 <= i < |kept| && kept[i] == Reg(g, t);
    assert Emit(OffIntended(On(reg, e, g, t), e, f), e, args)[i] == Call(g, t, args);
  }

  /** The intended removal undoes a registration of `f`: registering `f` and
      removing it leaves `e`'s dispatch as removing `f` alone would. */
  lemma OnThenOffIntended<H, C>(reg: Registry<H, C>, e: string, f: H, t: C)
    ensures OffIntended(On(reg, e, f, t), e, f) == OffIntended(reg, e, f)
  {
    FilterAppend(Lookup(reg, e), [Reg(f, t)], HandlerIsNot(f));
    assert Filter([Reg(f, t)], HandlerIsNot(f)) == [];
    assert Lookup(On(reg, e, f, t), e) == Lookup(reg, e) + [Reg(f, t)];
    assert OffIntended(On(reg, e, f, t), e, f)[e] == OffIntended(reg, e, f)[e];
  }

  /** The intended removal of `f` keeps a later registration of another
      handler `g` as it is, at the end: removing commutes with registering
      `g`. With `OnThenOffIntended` this fixes the order of what is kept. */
  lemma OffIntendedKeepsLaterOn<H, C>(reg: Registry<H, C>, e: string, f: H, g: H, t: C)
    requires g != f
    ensures OffIntended(On(reg, e, g, t), e, f) == On(OffIntended(reg, e, f), e, g, t)
  {
    FilterAppend(Lookup(reg, e), [Reg(g, t)], HandlerIsNot(f));
    assert Filter([Reg(g, t)], HandlerIsNot(f)) == [Reg(g, t)];
    assert Lookup(On(reg, e, g, t), e) == Lookup(reg, e) + [Reg(g, t)];
    assert OffIntended(On(reg, e, g, t), e, f)[e] == On(OffIntended(reg, e, f), e, g, t)[e];
  }

  /** The intended removal leaves a sequence holding no registration of `f`
      exactly as it was, order included. */
  lemma OffIntendedKeepsOthers<H, C>(reg: Registry<H, C>, e: string, f: H)
    requires e in reg
    requires forall i :: 0 <= i < |reg[e]| ==> reg[e][i].handler != f
    ensures OffIntended(reg, e, f) == reg
  {
    FilterKeepingAll(reg[e], HandlerIsNot(f));
  }

  /** The intended removal leaves no call to `f` in a later emit. */
  lemma OffIntendedSilencesHandler<H, C, A>(reg: Registry<H, C>, e: string, f: H, args: seq<A>)
    ensures forall i :: 0 <= i < |Emit(OffIntended(reg, e, f), e, args)| ==>
              Emit(OffIntended(reg, e, f), e, args)[i].handler != f
  {
  }

  /** When the `i`-th call is the first to throw, the calls before it are
      the ones made, the error escapes from that call, and no later handler
      runs. */
  lemma FirstThrowEndsDispatch<H, C, A>(reg: Registry<H, C>, e: string, args: seq<A>,
                                        raises: Call<H, C, A> -> bool, i: nat)
    requires i < |Lookup(reg, e)|
    requires raises(Emit(reg, e, args)[i])
    requires forall j :: 0 <= j < i ==> !raises(Emit(reg, e, args)[j])
    ensures EmitRaising(reg, e, args, raises) == Threw(Emit(reg, e, args)[..i], Emit(reg, e, args)[i])
  {
  }

  /** Two handlers registered for "save" on one receiver, then an emit with
      one payload value: each handler is called once on that receiver, in
      registration order. */
  lemma SaveScenario<H, C, A>(save1: H, save2: H, obj: C, v: A)
    ensures Emit(On(On(map[], "save", save1, obj), "save", save2, obj), "save", [v])
              == [Call(save1, obj, [v]), Call(save2, obj, [v])]
  {
  }
}
