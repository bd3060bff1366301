/** Deferred PLT and GOT relocations: `prepare_lazy` sizes the table, `do_relocs` fills it, and
    `redo_lazy_relocs` runs it again, compacting it in place. */
module LazyBinding {
  import opened Basics
  import opened Words
  import opened Hashes
  import opened Lookup
  import opened Relocs

  /** The form in which an entry waits: its addend is settled when it is put off. */
  function Waiting(i: Item): Entry {
    i.e.(addend := if i.form == Rela then i.e.addend else 0)
  }

  ghost predicate PutOff(c: Ctx, i: Item)
    requires ValidCtx(c) && i.e.sym < |c.dso.table.syms|
  {
    !Skipped(c.linker, i.e) && PltOrGot(i.e) && Bind(c, i.e) == Missing
  }

  /** The entries a pass defers, in order. */
  ghost function Postponed(c: Ctx, items: seq<Item>): (es: seq<Entry>)
    requires ValidCtx(c) && ValidItems(c, items)
    ensures |es| <= |items|
    ensures forall j :: 0 <= j < |es| ==> PltOrGot(es[j]) && es[j].sym < |c.dso.table.syms|
  {
    if items == [] then []
    else
      var i := items[|items| - 1];
      Postponed(c, items[..|items| - 1]) + if PutOff(c, i) then [Waiting(i)] else []
  }

  /** What one step does to the records of a pass. */
  lemma {:induction false} StepBooks(c: Ctx, p: Pass, i: Item)
    requires ValidCtx(c) && i.e.sym < |c.dso.table.syms|
    ensures var r := Step(c, p, i);
            && p.errors <= r.errors && (p.aborted ==> r == p)
            && (!p.aborted && c.lazy ==> r.deferred == p.deferred + if PutOff(c, i) then [Waiting(i)] else [])
            && (!p.aborted && c.lazy && PutOff(c, i) ==> r.errors == p.errors && !r.aborted)
            && (!p.aborted && r.errors == p.errors ==>
                  Skipped(c.linker, i.e) || Bind(c, i.e).Bound? || (c.lazy && PutOff(c, i)))
  {
    hide Bind, ValidCtx, Wrap, Value;
  }

  /** A waiting entry is written when it is bound and kept when it is not. */
  lemma {:induction false} StepRedo(c: Ctx, p: Pass, e: Entry)
    requires ValidCtx(c) && e.sym < |c.dso.table.syms| && c.lazy && !p.aborted && PltOrGot(e)
    ensures var r := Step(c, p, Item(e, Rela));
            !r.aborted && r.errors == p.errors
            && r.deferred == p.deferred + if Bind(c, e) == Missing then [e] else []
  {
    hide Bind, ValidCtx, Wrap;
  }

  lemma {:induction false} RunDefers(c: Ctx, p: Pass, items: seq<Item>)
    requires ValidCtx(c) && ValidItems(c, items) && c.lazy && !Run(c, p, items).aborted
    ensures Run(c, p, items).deferred == p.deferred + Postponed(c, items)
  {
    if items != [] {
      var n := |items| - 1;
      StepBooks(c, Run(c, p, items[..n]), items[n]);
      hide Step, ValidCtx, PutOff;
      RunDefers(c, p, items[..n]);
    }
  }

  /** Entries already in waiting form are compacted: the survivors are the unresolved ones, in order and
      with their addends, and nothing is reported. */
  ghost function Survivors(c: Ctx, es: seq<Entry>): (r: seq<Entry>)
    requires ValidCtx(c) && forall j :: 0 <= j < |es| ==> es[j].sym < |c.dso.table.syms|
  {
    if es == [] then []
    else
      var e := es[|es| - 1];
      Survivors(c, es[..|es| - 1]) + if Bind(c, e) == Missing then [e] else []
  }

  ghost predicate Deferrable(c: Ctx, es: seq<Entry>) {
    forall j :: 0 <= j < |es| ==> PltOrGot(es[j]) && es[j].sym < |c.dso.table.syms|
  }

  lemma {:induction false} ItemsPrefix(es: seq<Entry>, form: Form, n: nat)
    requires n < |es|
    ensures Items(es, form)[..n] == Items(es[..n], form) && Items(es, form)[n] == Item(es[n], form)
  {}

  lemma {:induction false} RedoCompacts(c: Ctx, p: Pass, es: seq<Entry>)
    requires ValidCtx(c) && Deferrable(c, es) && c.lazy && !p.aborted
    ensures ValidItems(c, Items(es, Rela))
    ensures var r := Run(c, p, Items(es, Rela));
            !r.aborted && r.errors == p.errors && r.deferred == p.deferred + Survivors(c, es)
  {
    hide Bind, ValidCtx, Step, Items;
    if es != [] {
      var n := |es| - 1;
      ItemsPrefix(es, Rela, n);
      RedoCompacts(c, p, es[..n]);
      StepRedo(c, Run(c, p, Items(es[..n], Rela)), es[n]);
    }
  }

  /** Every entry that does not survive has been written as symbol value plus addend. */
  lemma {:induction false} RedoWrites(c: Ctx, p: Pass, es: seq<Entry>, j: nat)
    requires ValidCtx(c) && Deferrable(c, es) && c.lazy && !p.aborted && p.slot <= |p.saved|
    requires ValidItems(c, Items(es, Rela)) && DistinctTargets(c.dso, Items(es, Rela)) && j < |es|
    ensures var r, at := Run(c, p, Items(es, Rela)), Address(c.dso, es[j]);
            match Bind(c, es[j])
            case Missing => Read(r.mem, at) == Read(p.mem, at)
            case Bound(d, y) =>
              Read(r.mem, at) == Wrap((if y.Some?
                  && d.Some? then Wrap(d.value.base + y.value.value) else 0) + es[j].addend)
  {
    hide Bind, ValidCtx, Wrap, Run, OthersKept, SlotFilled, DistinctTargets;
    var items := Items(es, Rela);
    RedoCompacts(c, p, es);
    NoSlots(c.linker, items);
    RunSettles(c, p, items);
    assert Landed(c, p, items, Run(c, p, items), j);
  }

  lemma {:induction false} NoSlots(linker: bool, items: seq<Item>)
    requires forall k :: 0 <= k < |items| ==> items[k].form != RelSaved
    ensures Slots(linker, items) == 0
  {
    if items != [] {
      NoSlots(linker, items[..|items| - 1]);
    }
  }

  // ---------------------------------------------------------------- lazy binding is eager binding

  /** `c` under another symbol chain. */
  function Under(c: Ctx, chain: seq<Dso>): Ctx {
    c.(chain := chain)
  }

  /** The same DSO without a lazy table, in a mode where errors do not end the pass. */
  function Eager(c: Ctx): (r: Ctx)
    ensures ValidCtx(c) ==> ValidCtx(r)
  {
    c.(lazy := false, runtime := false)
  }

  /** What a binding adds to the word of the reference. */
  function Contribution(e: Entry, b: Binding): word {
    if b.Missing? then 0
    else
      var symVal := if b.sym.Some? && b.dso.Some? then Wrap(b.dso.value.base + b.sym.value.value) else 0;
      var tlsVal := if b.sym.Some? then b.sym.value.value else 0;
      match e.typ
      case Offset => symVal
      case Symbolic => symVal
      case Got => symVal
      case Plt => symVal
      case SymOrRel => if e.sym != 0 then symVal else 0
      case DtpOff => tlsVal
      case DtpMod => if b.dso.Some? then b.dso.value.tlsId else 0
      case TpOff => if b.dso.Some? then Wrap(tlsVal - b.dso.value.tlsOffset) else 0
      case TpOffNeg => if b.dso.Some? then Wrap(b.dso.value.tlsOffset - tlsVal) else 0
      case _ => 0
  }

  /** The pass under `c` and an eager one under `chain` agree on an entry: it was skipped or put off, or
      both bind it and get the same from it, or neither does, or the one that does not finds in the word
      already what the other writes there. */
  ghost predicate Agrees(c: Ctx, chain: seq<Dso>, p: Pass, items: seq<Item>, k: nat)
    requires ValidCtx(c) && ValidCtx(Under(c, chain)) && ValidItems(c, items) && k < |items|
  {
    var e, w := items[k].e, Read(p.mem, Address(c.dso, items[k].e));
    var mine, theirs := Bind(c, e), Bind(Under(c, chain), e);
    || Skipped(c.linker, e)
    || PutOff(c, items[k])
    || (mine.Missing? && theirs.Missing?)
    || (mine.Bound? && theirs.Bound? && Contribution(e, mine) == Contribution(e, theirs))
    || (mine.Bound? && theirs.Missing? && Leaves(c, e, mine, w, AddendOf(c, p, items, k)))
    || (mine.Missing? && theirs.Bound? && Leaves(c, e, theirs, w, AddendOf(c, p, items, k)))
  }

  /** Writing what the binding gives would leave the word as it is. */
  ghost predicate Leaves(c: Ctx, e: Entry, b: Binding, w: word, addend: word)
    requires b.Bound?
  {
    Value(c, e, b, addend).Write? ==> Value(c, e, b, addend).value == w
  }

  ghost predicate AllAgree(c: Ctx, chain: seq<Dso>, p: Pass, items: seq<Item>)
    requires ValidCtx(c) && ValidCtx(Under(c, chain)) && ValidItems(c, items)
  {
    forall k :: 0 <= k < |items| ==> Agrees(c, chain, p, items, k)
  }

  /** A weak reference that was found missing is still missing in the longer chain, or what turns up
      there adds nothing. */
  ghost predicate Harmless(c: Ctx, more: seq<Dso>, e: Entry)
    requires ValidCtx(c) && ValidCtx(Under(c, c.chain + more)) && e.sym < |c.dso.table.syms|
  {
    !Skipped(c.linker, e) && Bind(c, e) == Bound(None, None) ==>
      Contribution(e, Bind(Under(c, c.chain + more), e)) == 0
  }

  ghost predicate AllHarmless(c: Ctx, more: seq<Dso>, items: seq<Item>)
    requires ValidCtx(c) && ValidCtx(Under(c, c.chain + more)) && ValidItems(c, items)
  {
    forall k :: 0 <= k < |items| ==> Harmless(c, more, items[k].e)
  }

  lemma {:induction false} ResolveStable(c: Ctx, more: seq<Dso>, s: CString, needDef: bool)
    requires ValidCtx(c) && ValidCtx(Under(c, c.chain + more))
    ensures ValidChain(Tables(c.chain)) && ValidChain(Tables(c.chain + more))
    ensures Resolve(Tables(c.chain), s, needDef).Some? ==>
              Resolve(Tables(c.chain + more), s, needDef) == Resolve(Tables(c.chain), s, needDef)
  {
    hide Resolve;
    assert Tables(c.chain + more) == Tables(c.chain) + Tables(more);
    if Resolve(Tables(c.chain), s, needDef).Some? {
      AppendKeepsResolution(Tables(c.chain), Tables(more), s, needDef);
    }
  }

  /** A reference that is bound stays bound to the same definition when DSOs are appended. */
  lemma {:induction false} BindStable(c: Ctx, more: seq<Dso>, e: Entry)
    requires ValidCtx(c) && ValidCtx(Under(c, c.chain + more)) && e.sym < |c.dso.table.syms|
    requires Bind(c, e).Bound? && Bind(c, e) != Bound(None, None)
    ensures Bind(Under(c, c.chain + more), e) == Bind(c, e)
  {
    hide Resolve, ValidChain, NameOf, Usable;
    if e.sym != 0 && c.dso.table.syms[e.sym].typ != STT_SECTION {
      ResolveStable(c, more, NameOf(c.dso.table, e.sym), e.typ == Plt);
    }
  }

  lemma {:induction false} PostponedTargets(c: Ctx, items: seq<Item>, j: nat) returns (k: nat)
    requires ValidCtx(c) && ValidItems(c, items) && j < |Postponed(c, items)|
    ensures k < |items| && PutOff(c, items[k]) && Postponed(c, items)[j] == Waiting(items[k])
  {
    hide PutOff;
    var n := |items| - 1;
    if j < |Postponed(c, items[..n])| {
      k := PostponedTargets(c, items[..n], j);
    } else {
      k := n;
    }
  }

  lemma {:induction false} PostponedHas(c: Ctx, items: seq<Item>, k: nat) returns (j: nat)
    requires ValidCtx(c) && ValidItems(c, items) && k < |items| && PutOff(c, items[k])
    ensures j < |Postponed(c, items)| && Postponed(c, items)[j] == Waiting(items[k])
  {
    hide PutOff;
    var n := |items| - 1;
    if k < n {
      assert items[..n][k] == items[k];
      j := PostponedHas(c, items[..n], k);
    } else {
      j := |Postponed(c, items[..n])|;
    }
  }

  lemma {:induction false} WaitingIsElsewhere(c: Ctx, items: seq<Item>, at: word)
    requires ValidCtx(c) && ValidItems(c, items) && !IsTarget(c.dso, items, at)
    ensures !IsTarget(c.dso, Items(Postponed(c, items), Rela), at)
  {
    hide PutOff, ValidCtx;
    var later := Items(Postponed(c, items), Rela);
    forall j | 0 <= j < |later| ensures Address(c.dso, later[j].e) != at {
      var k := PostponedTargets(c, items, j);
      assert Address(c.dso, later[j].e) == Address(c.dso, items[k].e);
    }
  }

  lemma {:induction false} PostponedDistinct(c: Ctx, items: seq<Item>)
    requires ValidCtx(c) && ValidItems(c, items) && DistinctTargets(c.dso, items)
    ensures DistinctTargets(c.dso, Items(Postponed(c, items), Rela))
  {
    hide PutOff, ValidCtx, Bind, DistinctTargets, IsTarget, Items, Wrap, Address, Waiting, Postponed;
    PostponedLast(c, items);
    if items == [] {
      NoTargets(c.dso);
    } else {
      var n := |items| - 1;
      LastIsFresh(c.dso, items);
      PostponedDistinct(c, items[..n]);
      WaitingIsElsewhere(c, items[..n], Address(c.dso, items[n].e));
      DistinctAppend(c.dso, Postponed(c, items[..n]), Waiting(items[n]));
    }
  }

  lemma {:induction false} NoTargets(d: Dso)
    ensures DistinctTargets(d, Items([], Rela))
  {}

  lemma {:induction false} PostponedLast(c: Ctx, items: seq<Item>)
    requires ValidCtx(c) && ValidItems(c, items)
    ensures items == [] ==> Postponed(c, items) == []
    ensures items != [] ==>
              var i := items[|items| - 1];
              && ValidItems(c, items[..|items| - 1])
              && Postponed(c, items) == (var es := Postponed(c, items[..|items| - 1]);
                                         if PutOff(c, i) then es + [Waiting(i)] else es)
              && Address(c.dso, Waiting(i)) == Address(c.dso, i.e)
  {
    hide PutOff, ValidCtx, Bind, Wrap, Waiting, Address;
    if items != [] {
      SameAddress(c.dso, items[|items| - 1]);
    }
  }

  lemma {:induction false} SameAddress(d: Dso, i: Item)
    ensures Address(d, Waiting(i)) == Address(d, i.e)
  {
  }

  lemma {:induction false} DistinctAppend(d: Dso, es: seq<Entry>, e: Entry)
    requires DistinctTargets(d, Items(es, Rela)) && !IsTarget(d, Items(es, Rela), Address(d, e))
    ensures DistinctTargets(d, Items(es + [e], Rela))
  {
    hide Address;
    var a, b := Items(es, Rela), Items(es + [e], Rela);
    assert forall k :: 0 <= k < |es| ==> a[k] == b[k];
    assert forall k :: 0 <= k < |es| ==> Address(d, a[k].e) != Address(d, e);
  }

  /** A pass that puts relocations off under one scope, and its redo under any other scope, leave the
      memory that an eager pass under that other scope leaves exactly when the two scopes agree on every
      entry that was not put off. */
  lemma {:induction false} LazyIsEagerIff(c: Ctx, chain: seq<Dso>, p: Pass, items: seq<Item>)
    requires ValidCtx(c) && ValidCtx(Under(c, chain)) && ValidItems(c, items)
    requires c.lazy && !c.stage2 && DistinctTargets(c.dso, items)
    requires p.deferred == [] && p.slot + Slots(c.linker, items) <= |p.saved|
    // neither pass was abandoned
    requires !Run(c, p, items).aborted && !Run(Eager(Under(c, chain)), p, items).aborted
    ensures var r := Run(c, p, items);
            var cc := Under(c, chain);
            && ValidItems(cc, Items(r.deferred, Rela))
            && (SameMemory(Run(cc, r, Items(r.deferred, Rela)).mem, Run(Eager(cc), p, items).mem)
                <==> AllAgree(c, chain, p, items))
  {
    hide ValidCtx, Run, Items, DistinctTargets, Agrees, Setting, IsTarget, Postponed, Bind, Slots;
    var cc, r := Under(c, chain), Run(c, p, items);
    var later, g := Items(r.deferred, Rela), Run(Eager(cc), p, items);
    LazySetting(c, chain, p, items);
    var z := Run(cc, r, later);
    forall k | 0 <= k < |items|
      ensures var at := Address(c.dso, items[k].e);
              Read(z.mem, at) == Read(g.mem, at) <==> Agrees(c, chain, p, items, k)
    {
      WordIsEagerIff(c, chain, p, items, r, z, g, k);
    }
    forall a: word | AllAgree(c, chain, p, items) ensures Read(z.mem, a) == Read(g.mem, a) {
      if IsTarget(c.dso, items, a) {
        var k := TargetOf(c.dso, items, a);
      } else {
        OtherWordIsEager(c, chain, p, items, r, z, g, a);
      }
    }
  }

  /** The redo under a longer chain, when the first pass reported nothing: the memories are the same
      exactly when no weak reference missed something that turned up. */
  lemma {:induction false} GrownScopeIsEagerIff(c: Ctx, more: seq<Dso>, p: Pass, items: seq<Item>)
    requires ValidCtx(c) && ValidCtx(Under(c, c.chain + more)) && ValidItems(c, items)
    requires c.lazy && !c.stage2 && DistinctTargets(c.dso, items)
    requires p.deferred == [] && p.slot + Slots(c.linker, items) <= |p.saved|
    requires var r := Run(c, p, items); !r.aborted && r.errors == p.errors
    requires !Run(Eager(Under(c, c.chain + more)), p, items).aborted
    ensures var r := Run(c, p, items);
            var cc := Under(c, c.chain + more);
            && ValidItems(cc, Items(r.deferred, Rela))
            && (SameMemory(Run(cc, r, Items(r.deferred, Rela)).mem, Run(Eager(cc), p, items).mem)
                <==> AllHarmless(c, more, items))
  {
    hide ValidCtx, Run, Items, DistinctTargets, Agrees, Harmless, Bind, Slots, SameMemory;
    LazyIsEagerIff(c, c.chain + more, p, items);
    forall k | 0 <= k < |items|
      ensures Agrees(c, c.chain + more, p, items, k) <==> Harmless(c, more, items[k].e)
    {
      GrownScopeAgreesIff(c, more, p, items, k);
    }
  }

  lemma {:induction false} GrownScopeAgreesIff(c: Ctx, more: seq<Dso>, p: Pass, items: seq<Item>, k: nat)
    requires ValidCtx(c) && ValidCtx(Under(c, c.chain + more)) && ValidItems(c, items) && k < |items| && c.lazy
    requires var r := Run(c, p, items); !r.aborted && r.errors == p.errors
    ensures Agrees(c, c.chain + more, p, items, k) <==> Harmless(c, more, items[k].e)
  {
    hide ValidCtx, Run, Bind, Skipped, AddendOf, Leaves, Address;
    var e := items[k].e;
    ErrorsMeanUnbound(c, p, items, k);
    if !Skipped(c.linker, e) && !PutOff(c, items[k]) {
      if Bind(c, e) == Bound(None, None) {
        WeakBinds(c, Under(c, c.chain + more), e);
        assert Contribution(e, Bind(c, e)) == 0;
      } else {
        BindStable(c, more, e);
      }
    }
  }

  ghost predicate SameMemory(m: Memory, n: Memory) {
    forall a: word :: Read(m, a) == Read(n, a)
  }

  lemma {:induction false} TargetOf(d: Dso, items: seq<Item>, a: word) returns (k: nat)
    requires IsTarget(d, items, a)
    ensures k < |items| && Address(d, items[k].e) == a
  {
    k :| 0 <= k < |items| && Address(d, items[k].e) == a;
  }

  /** Whether a context is valid with or without a lazy table. */
  lemma {:induction false} ChainAside(c: Ctx, chain: seq<Dso>)
    requires ValidCtx(Under(c, chain))
    ensures ValidCtx(Eager(Under(c, chain)))
  {}

  lemma {:induction false} LazySetting(c: Ctx, chain: seq<Dso>, p: Pass, items: seq<Item>)
    requires ValidCtx(c) && ValidCtx(Under(c, chain)) && ValidItems(c, items)
    requires c.lazy && !c.stage2 && DistinctTargets(c.dso, items)
    requires p.deferred == [] && p.slot + Slots(c.linker, items) <= |p.saved|
    requires !Run(c, p, items).aborted && !Run(Eager(Under(c, chain)), p, items).aborted
    ensures var r := Run(c, p, items);
            var cc := Under(c, chain);
            && ValidItems(cc, Items(r.deferred, Rela)) && r.deferred == Postponed(c, items)
            && Setting(c, chain, p, items, r, Run(cc, r, Items(r.deferred, Rela)), Run(Eager(cc), p, items))
  {
    hide ValidCtx, DistinctTargets, Run, Bind, Landed, SlotFilled, OthersKept, Postponed, Items, Slots;
    var cc, r := Under(c, chain), Run(c, p, items);
    var es := r.deferred;
    ChainAside(c, chain);
    RunDefers(c, p, items);
    assert es == Postponed(c, items);
    RunSettles(c, p, items);
    RunSettles(Eager(cc), p, items);
    RedoCompacts(cc, r, es);
    PostponedDistinct(c, items);
    NoSlots(cc.linker, Items(es, Rela));
    RunSettles(cc, r, Items(es, Rela));
  }

  lemma {:induction false} OtherWordIsEager(c: Ctx, chain: seq<Dso>, p: Pass, items: seq<Item>,
                                            r: Pass, z: Pass, g: Pass, a: word)
    requires Setting(c, chain, p, items, r, z, g) && !IsTarget(c.dso, items, a)
    ensures Read(z.mem, a) == Read(g.mem, a)
  {
    hide ValidCtx, Run, DistinctTargets, IsTarget, Landed, SlotFilled, Read;
    WaitingIsElsewhere(c, items, a);
  }

  lemma {:induction false} WordIsEagerIff(c: Ctx, chain: seq<Dso>, p: Pass, items: seq<Item>,
                                          r: Pass, z: Pass, g: Pass, k: nat)
    requires Setting(c, chain, p, items, r, z, g) && k < |items|
    ensures ValidItems(c, items) && ValidCtx(c) && ValidCtx(Under(c, chain))
    ensures var at := Address(c.dso, items[k].e);
            Read(z.mem, at) == Read(g.mem, at) <==> Agrees(c, chain, p, items, k)
  {
    hide ValidCtx, Bind, Run, DistinctTargets, Settled, Postponed, Items, Contribution, Leaves, Landing, Address,
         AddendOf, Skipped;
    var cc := Under(c, chain);
    if PutOff(c, items[k]) {
      PutOffWordIsEager(c, chain, p, items, r, z, g, k);
    } else {
      WrittenOnce(c, chain, p, items, r, z, g, k);
      NoNullModule(c, p, items, k);
      NoNullModule(Eager(cc), p, items, k);
      BindIgnores(cc, items[k]);
      LandsAlikeIff(c, cc, items[k].e, Read(p.mem, Address(c.dso, items[k].e)), AddendOf(c, p, items, k));
    }
  }

  /** The first pass under `c`, the redo under `chain`, and the eager pass under `chain`. */
  ghost predicate Setting(c: Ctx, chain: seq<Dso>, p: Pass, items: seq<Item>, r: Pass, z: Pass, g: Pass) {
    && ValidCtx(c) && ValidCtx(Under(c, chain)) && ValidItems(c, items)
    && c.lazy && !c.stage2 && DistinctTargets(c.dso, items)
    && r == Run(c, p, items) && !r.aborted && Settled(c, p, items, r)
    && g == Run(Eager(Under(c, chain)), p, items) && !g.aborted && Settled(Eager(Under(c, chain)), p, items, g)
    && ValidItems(Under(c, chain), Items(Postponed(c, items), Rela))
    && Settled(Under(c, chain), r, Items(Postponed(c, items), Rela), z)
  }

  /** The word of an entry that was put off ends as the eager pass leaves it, whatever the scope of the
      redo. */
  lemma {:induction false} PutOffWordIsEager(c: Ctx, chain: seq<Dso>, p: Pass, items: seq<Item>,
                                             r: Pass, z: Pass, g: Pass, k: nat)
    requires Setting(c, chain, p, items, r, z, g) && k < |items| && PutOff(c, items[k])
    ensures var at := Address(c.dso, items[k].e); Read(z.mem, at) == Read(g.mem, at)
  {
    hide ValidCtx, Wrap, Bind, Landing, Run, DistinctTargets, OthersKept, SlotFilled, Postponed, Read, Items;
    var cc := Under(c, chain);
    var at := Address(c.dso, items[k].e);
    var j := PostponedHas(c, items, k);
    assert Landed(c, p, items, r, k) && Landed(Eager(cc), p, items, g, k);
    assert Landed(cc, r, Items(Postponed(c, items), Rela), z, j);
    MissingLands(c, items[k].e);
    assert Read(r.mem, at) == Read(p.mem, at);
    WaitingLandsAlike(cc, Read(r.mem, at), items[k]);
  }

  lemma {:induction false} MissingLands(c: Ctx, e: Entry)
    requires ValidCtx(c) && e.sym < |c.dso.table.syms|
    ensures Bind(c, e) == Missing ==> forall w: word, a: word :: Landing(c, w, e, a) == w
  {
    hide ValidCtx, Bind;
  }

  /** A waiting entry lands where the entry it came from lands. */
  lemma {:induction false} WaitingLandsAlike(c: Ctx, before: word, i: Item)
    requires ValidCtx(c) && i.e.sym < |c.dso.table.syms|
    ensures forall addend: word ::
              Landing(c, before, Waiting(i), addend) == Landing(Eager(c), before, i.e, addend)
  {
    hide ValidCtx, Wrap, Bind;
    BindIgnores(c, i);
  }

  lemma {:induction false} BindIgnores(c: Ctx, i: Item)
    requires ValidCtx(c) && i.e.sym < |c.dso.table.syms|
    ensures ValidCtx(Eager(c)) && Bind(c, Waiting(i)) == Bind(c, i.e) == Bind(Eager(c), i.e)
  {
  }

  /** An entry that was not put off is written by the first pass and left alone by the second. */
  lemma {:induction false} WrittenOnce(c: Ctx, chain: seq<Dso>, p: Pass, items: seq<Item>,
                                       r: Pass, z: Pass, g: Pass, k: nat)
    requires Setting(c, chain, p, items, r, z, g) && k < |items| && !PutOff(c, items[k])
    ensures var at, addend := Address(c.dso, items[k].e), AddendOf(c, p, items, k);
            && Read(z.mem, at) == Landing(c, Read(p.mem, at), items[k].e, addend)
            && Read(g.mem, at) == Landing(Eager(Under(c, chain)), Read(p.mem, at), items[k].e, addend)
  {
    hide ValidCtx, Wrap, Bind, Landing, Run, DistinctTargets, SlotFilled, Postponed, Read, Items, IsTarget;
    assert Landed(c, p, items, r, k) && Landed(Eager(Under(c, chain)), p, items, g, k);
    NotPutOffStays(c, p, items, Items(Postponed(c, items), Rela), k);
  }

  /** The binding is nothing, where the code would take a module's number or offset from it. */
  predicate NullModuleOf(e: Entry, b: Binding) {
    b.Bound? && b.dso.None? && e.typ in {DtpMod, TpOff, TpOffNeg}
  }

  /** A pass that was not abandoned took no module from a reference bound to nothing. */
  lemma {:induction false} NoNullModule(c: Ctx, p: Pass, items: seq<Item>, k: nat)
    requires ValidCtx(c) && ValidItems(c, items) && k < |items| && !Run(c, p, items).aborted
    ensures !Skipped(c.linker, items[k].e) ==> !NullModuleOf(items[k].e, Bind(c, items[k].e))
  {
    hide Bind, Wrap, ValidCtx;
    var n := |items| - 1;
    if k < n {
      assert items[..n][k] == items[k];
      NoNullModule(c, p, items[..n], k);
    }
  }

  /** Two scopes make the same of a word exactly when they agree on the entry. */
  lemma {:induction false} LandsAlikeIff(c: Ctx, d: Ctx, e: Entry, w: word, addend: word)
    requires ValidCtx(c) && ValidCtx(d) && c.dso == d.dso && c.linker == d.linker && e.sym < |c.dso.table.syms|
    requires Skipped(c.linker, e) || (!NullModuleOf(e, Bind(c, e)) && !NullModuleOf(e, Bind(d, e)))
    ensures ValidCtx(Eager(d))
    ensures Landing(c, w, e, addend) == Landing(Eager(d), w, e, addend) <==>
              (|| Skipped(c.linker, e)
               || (Bind(c, e).Missing? && Bind(d, e).Missing?)
               || (Bind(c, e).Bound? && Bind(d, e).Bound?
                   && Contribution(e, Bind(c, e)) == Contribution(e, Bind(d, e)))
               || (Bind(c, e).Bound? && Bind(d, e).Missing? && Leaves(c, e, Bind(c, e), w, addend))
               || (Bind(c, e).Missing? && Bind(d, e).Bound? && Leaves(c, e, Bind(d, e), w, addend)))
  {
    hide ValidCtx, Value, Bind, Contribution, Skipped;
    BindIgnores(d, Item(e, Rela));
    var mine, theirs := Bind(c, e), Bind(d, e);
    if !Skipped(c.linker, e) && mine.Bound? {
      ValueIsWritten(c, e, mine, addend);
    }
    if !Skipped(c.linker, e) && theirs.Bound? {
      ValueIsWritten(c, e, theirs, addend);
      ValueIgnores(c, Eager(d), e, theirs, addend);
    }
    if !Skipped(c.linker, e) && mine.Bound? && theirs.Bound? {
      ValuesAlikeIff(c, e, mine, theirs, addend);
    }
  }

  lemma {:induction false} ValueIsWritten(c: Ctx, e: Entry, b: Binding, addend: word)
    requires b.Bound? && !NullModuleOf(e, b)
    ensures if e.typ == Unsupported then Value(c, e, b, addend).Fails? else Value(c, e, b, addend).Write?
  {
    hide Wrap, Address;
  }

  lemma {:induction false} ValueIgnores(c: Ctx, d: Ctx, e: Entry, b: Binding, addend: word)
    requires b.Bound? && c.dso == d.dso
    ensures Value(c, e, b, addend) == Value(d, e, b, addend)
  {
    hide Wrap, Address;
  }

  /** Two bindings give the same value exactly when they contribute the same. */
  lemma {:induction false} ValuesAlikeIff(c: Ctx, e: Entry, b: Binding, b': Binding, addend: word)
    requires b.Bound? && b'.Bound? && !NullModuleOf(e, b) && !NullModuleOf(e, b')
    ensures Value(c, e, b, addend) == Value(c, e, b', addend) <==>
              Contribution(e, b) == Contribution(e, b')
  {
    hide Address, Wrap;
    var x, y := Contribution(e, b), Contribution(e, b');
    WrapCancel(x, y, addend);
    WrapCancel(x, y, addend - Address(c.dso, e));
    WrapCancel(x, y, addend - DTP_OFFSET);
    if e.typ == TpOff {
      var u, v := b.sym, b'.sym;
      WrapSum(addend, (if u.Some? then u.value.value else 0) - b.dso.value.tlsOffset);
      WrapSum(addend, (if v.Some? then v.value.value else 0) - b'.dso.value.tlsOffset);
    } else if e.typ == TpOffNeg {
      var u, v := b.sym, b'.sym;
      WrapSum(addend, b.dso.value.tlsOffset - if u.Some? then u.value.value else 0);
      WrapSum(addend, b'.dso.value.tlsOffset - if v.Some? then v.value.value else 0);
    }
  }

  lemma {:induction false} WeakBinds(c: Ctx, d: Ctx, e: Entry)
    requires ValidCtx(c) && ValidCtx(d) && c.dso == d.dso && e.sym < |c.dso.table.syms|
    requires Bind(c, e) == Bound(None, None)
    ensures e.sym != 0 && Bind(d, e).Bound? && Bind(d, e).dso.Some? == Bind(d, e).sym.Some?
  {
    hide ValidCtx;
  }

  lemma {:induction false} WrapCancel(x: word, y: word, z: int)
    ensures Wrap(x + z) == Wrap(y + z) <==> x == y
  {}

  lemma {:induction false} NotPutOffStays(c: Ctx, p: Pass, items: seq<Item>, later: seq<Item>, k: nat)
    requires ValidCtx(c) && ValidItems(c, items) && DistinctTargets(c.dso, items) && k < |items|
    requires later == Items(Postponed(c, items), Rela) && !PutOff(c, items[k])
    ensures !IsTarget(c.dso, later, Address(c.dso, items[k].e))
  {
    hide PutOff, Wrap, ValidCtx;
    forall j | 0 <= j < |later|
      ensures Address(c.dso, later[j].e) != Address(c.dso, items[k].e)
    {
      var i := PostponedTargets(c, items, j);
      assert Address(c.dso, later[j].e) == Address(c.dso, items[i].e);
    }
  }

  /** A pass that reports nothing has bound, deferred or skipped every entry. */
  lemma {:induction false} ErrorsMeanUnbound(c: Ctx, p: Pass, items: seq<Item>, k: nat)
    requires ValidCtx(c) && ValidItems(c, items) && k < |items| && !Run(c, p, items).aborted
    requires Run(c, p, items).errors == p.errors
    ensures Skipped(c.linker, items[k].e) || Bind(c, items[k].e).Bound? || (c.lazy && PutOff(c, items[k]))
  {
    hide Step, ValidCtx, PutOff, Bind, Skipped;
    var n := |items| - 1;
    StepBooks(c, Run(c, p, items[..n]), items[n]);
    ErrorsGrow(c, p, items);
    if k < n {
      assert items[..n][k] == items[k];
      StepsGrow(c, p, items);
      ErrorsMeanUnbound(c, p, items[..n], k);
    }
  }

  lemma {:induction false} StepsGrow(c: Ctx, p: Pass, items: seq<Item>)
    requires ValidCtx(c) && ValidItems(c, items) && items != []
    ensures Run(c, p, items[..|items| - 1]).aborted ==> Run(c, p, items).aborted
  {
    hide ValidCtx, PutOff, Bind, Skipped, Wrap, Value;
  }

  lemma {:induction false} ErrorsGrow(c: Ctx, p: Pass, items: seq<Item>)
    requires ValidCtx(c) && ValidItems(c, items)
    ensures p.errors <= Run(c, p, items).errors
    ensures items != [] && Run(c, p, items).errors == p.errors ==> Run(c, p, items[..|items| - 1]).errors == p.errors
  {
    if items != [] {
      var n := |items| - 1;
      StepBooks(c, Run(c, p, items[..n]), items[n]);
      hide Step, ValidCtx, PutOff, Bind, Skipped;
      ErrorsGrow(c, p, items[..n]);
    }
  }

  // ---------------------------------------------------------------- an input that fails

  /** A symbol table of one symbol named `a`, in a System V section of one bucket. */
  const USING := Table([97, 0], [Sym(1, 0, 0, 0, 0), Sym(0, 0, 0, STB_WEAK, 0)], None, [1, 2, 1, 0, 0], None)
  const DEFINING := Table([97, 0], [Sym(1, 0, 0, 0, 0), Sym(0, 16, 0, 1, 1)], None, [1, 2, 1, 0, 0], None)

  /** A library with a weak reference, loaded where nothing defines it, and one that does. */
  const USER := Dso(0, USING, 0, 0)
  const PROVIDER := Dso(4096, DEFINING, 0, 0)
  const ALONE := Ctx(USER, [USER], false, false, true, true)
  const REFERENCE := Item(Entry(8, Symbolic, 1, 0), Rela)
  const AT_FIRST := Pass(map[], [], 0, [], [], false)

  lemma {:induction false} OneBucketTable(d: Table)
    requires d.strings == [97, 0] && |d.syms| == 2 && d.syms[0].name == 1 && d.syms[1].name == 0
    requires d.versym.None? && d.hashtab == [1, 2, 1, 0, 0] && d.gnu.None?
    ensures ValidTable(d) && NameOf(d, 1) == [97]
    ensures LookupIn(d, [97]) == Some(1)
  {
    assert d.strings[1] == 0;
    assert Terminated(d.strings, 0) && Terminated(d.strings, 1);
    assert IsPath(d, 0, [1]) by {
      assert ChainNext(d, 1) == 0;
    }
    assert HasPath(d, 0);
    var path := PathOf(d, [97]);
    assert ChainNext(d, 1) == 0;
    assert path[0] == 1;
    assert Matches(d, [97], 1);
  }

  /** What the reference is bound to first, and when the other library is on the chain. */
  lemma {:induction false} WeakReferenceBinds()
    ensures ValidCtx(ALONE) && ValidCtx(Under(ALONE, [USER] + [PROVIDER]))
    ensures Bind(ALONE, REFERENCE.e) == Bound(None, None)
    ensures Bind(Under(ALONE, [USER] + [PROVIDER]), REFERENCE.e) == Bound(Some(PROVIDER), Some(DEFINING.syms[1]))
  {
    hide LookupIn;
    OneBucketTable(USING);
    OneBucketTable(DEFINING);
    var one, two := Tables([USER]), Tables([USER] + [PROVIDER]);
    assert one[..0] == [] && two[..1] == one;
    assert Resolve(one, [97], false).None?;
    assert Resolve(two, [97], false) == Some(SymDef(1, 1));
  }

  /** It is written as 0 and stays so, where an eager pass writes the definition's address. */
  lemma {:induction false} WeakReferenceStaysUnbound()
    ensures ValidCtx(ALONE) && ValidCtx(Under(ALONE, [USER] + [PROVIDER])) && ValidItems(ALONE, [REFERENCE])
    ensures var r := Run(ALONE, AT_FIRST, [REFERENCE]);
            var cc := Under(ALONE, [USER] + [PROVIDER]);
            && r.deferred == [] && Read(Run(cc, r, Items([], Rela)).mem, 8) == 0
            && Read(Run(Eager(cc), AT_FIRST, [REFERENCE]).mem, 8) == 4112
    ensures !AllHarmless(ALONE, [PROVIDER], [REFERENCE])
    ensures !AllAgree(ALONE, [USER] + [PROVIDER], AT_FIRST, [REFERENCE])
  {
    hide ValidCtx, Bind;
    WeakReferenceBinds();
    var cc := Under(ALONE, [USER] + [PROVIDER]);
    BindIgnores(cc, REFERENCE);
    assert [REFERENCE][..0] == [];
    assert !Harmless(ALONE, [PROVIDER], [REFERENCE][0].e);
    assert !Agrees(ALONE, [USER] + [PROVIDER], AT_FIRST, [REFERENCE], 0);
  }
}
