/** Deferred relocations over many calls of `dlopen`: each call runs what is still waiting again, under the
    symbol chain of the day. */
module RedoScopes {
  import opened Basics
  import opened Words
  import opened Relocs
  import opened LazyBinding

  ghost predicate ValidScopes(c: Ctx, chains: seq<seq<Dso>>) {
    forall i :: 0 <= i < |chains| ==> ValidCtx(Under(c, chains[i]))
  }

  ghost predicate Waitable(c: Ctx, es: seq<Entry>) {
    Deferrable(c, es) && DistinctTargets(c.dso, Items(es, Rela))
  }

  /** What is still waiting after a redo under each of the chains in turn. */
  ghost function StillWaiting(c: Ctx, chains: seq<seq<Dso>>, es: seq<Entry>): (r: seq<Entry>)
    requires ValidScopes(c, chains) && Deferrable(c, es)
    ensures Deferrable(c, r)
  {
    if chains == [] then es
    else
      var n := |chains| - 1;
      SurvivorsAre(Under(c, chains[n]), StillWaiting(c, chains[..n], es));
      Survivors(Under(c, chains[n]), StillWaiting(c, chains[..n], es))
  }

  /** The state after a redo under each of the chains in turn. */
  ghost function Redos(c: Ctx, chains: seq<seq<Dso>>, q: Pass, es: seq<Entry>): Pass
    requires ValidScopes(c, chains) && Deferrable(c, es)
  {
    if chains == [] then q
    else
      var n := |chains| - 1;
      Run(Under(c, chains[n]), Redos(c, chains[..n], q, es).(deferred := []),
          Items(StillWaiting(c, chains[..n], es), Rela))
  }

  /** The first of the chains in which the reference is bound, or their number. */
  ghost function FirstBound(c: Ctx, chains: seq<seq<Dso>>, e: Entry): (f: nat)
    requires ValidScopes(c, chains) && e.sym < |c.dso.table.syms|
    ensures f <= |chains|
  {
    if chains == [] then 0
    else
      var n := |chains| - 1;
      var f := FirstBound(c, chains[..n], e);
      if f < n || Bind(Under(c, chains[n]), e).Bound? then f else |chains|
  }

  lemma {:induction false} FirstBoundIs(c: Ctx, chains: seq<seq<Dso>>, e: Entry)
    requires ValidScopes(c, chains) && e.sym < |c.dso.table.syms|
    ensures var f := FirstBound(c, chains, e);
            && (forall i :: 0 <= i < f ==> Bind(Under(c, chains[i]), e) == Missing)
            && (f < |chains| ==> Bind(Under(c, chains[f]), e).Bound?)
  {
    hide Bind, ValidCtx;
    if chains != [] {
      var n := |chains| - 1;
      FirstBoundIs(c, chains[..n], e);
      forall i | 0 <= i < FirstBound(c, chains, e) ensures Bind(Under(c, chains[i]), e) == Missing {
        assert i < n ==> chains[..n][i] == chains[i];
      }
    }
  }

  lemma {:induction false} FirstBoundNext(c: Ctx, chains: seq<seq<Dso>>, e: Entry)
    requires ValidScopes(c, chains) && e.sym < |c.dso.table.syms| && chains != []
    ensures var n := |chains| - 1;
            var f := FirstBound(c, chains[..n], e);
            FirstBound(c, chains, e) == if f < n || Bind(Under(c, chains[n]), e).Bound? then f else |chains|
  {
    hide Bind, ValidCtx;
  }

  lemma {:induction false} SurvivorsAre(c: Ctx, es: seq<Entry>)
    requires ValidCtx(c) && Deferrable(c, es)
    ensures forall e :: e in Survivors(c, es) <==> e in es && Bind(c, e) == Missing
    ensures Deferrable(c, Survivors(c, es))
  {
    hide Bind, ValidCtx;
    if es != [] {
      var n := |es| - 1;
      SurvivorsAre(c, es[..n]);
      assert es == es[..n] + [es[n]];
    }
  }

  /** What survives still has a word of its own. */
  lemma {:induction false} SurvivorsDistinct(c: Ctx, es: seq<Entry>)
    requires ValidCtx(c) && Waitable(c, es)
    ensures Waitable(c, Survivors(c, es))
  {
    hide Bind, ValidCtx, DistinctTargets, IsTarget, Address;
    SurvivorsAre(c, es);
    if es == [] {
      NoTargets(c.dso);
    } else {
      var n := |es| - 1;
      ItemsPrefix(es, Rela, n);
      LastIsFresh(c.dso, Items(es, Rela));
      SurvivorsDistinct(c, es[..n]);
      if Bind(c, es[n]) == Missing {
        SurvivorsElsewhere(c, es[..n], Address(c.dso, es[n]));
        DistinctAppend(c.dso, Survivors(c, es[..n]), es[n]);
      } else {
        assert Survivors(c, es) == Survivors(c, es[..n]);
      }
    }
  }

  lemma {:induction false} SurvivorsElsewhere(c: Ctx, es: seq<Entry>, at: word)
    requires ValidCtx(c) && Deferrable(c, es) && !IsTarget(c.dso, Items(es, Rela), at)
    ensures !IsTarget(c.dso, Items(Survivors(c, es), Rela), at)
  {
    hide Bind, ValidCtx, Address;
    SurvivorsAre(c, es);
    var later, items := Items(Survivors(c, es), Rela), Items(es, Rela);
    forall k | 0 <= k < |later| ensures Address(c.dso, later[k].e) != at {
      assert later[k].e in Survivors(c, es);
      var j :| 0 <= j < |es| && es[j] == later[k].e;
      assert items[j].e == es[j];
    }
  }

  /** Exactly the entries that no chain so far has bound are waiting. */
  lemma {:induction false} WaitingAre(c: Ctx, chains: seq<seq<Dso>>, es: seq<Entry>)
    requires ValidScopes(c, chains) && Waitable(c, es)
    ensures Waitable(c, StillWaiting(c, chains, es))
    ensures forall e :: e in StillWaiting(c, chains, es) <==>
              e in es && e.sym < |c.dso.table.syms| && FirstBound(c, chains, e) == |chains|
  {
    hide Bind, ValidCtx, DistinctTargets, Survivors;
    if chains != [] {
      var n := |chains| - 1;
      WaitingAre(c, chains[..n], es);
      SurvivorsAre(Under(c, chains[n]), StillWaiting(c, chains[..n], es));
      SurvivorsDistinct(Under(c, chains[n]), StillWaiting(c, chains[..n], es));
      forall e | e in es ensures FirstBound(c, chains, e) == |chains|
          <==> FirstBound(c, chains[..n], e) == n && Bind(Under(c, chains[n]), e) == Missing
      {
        FirstBoundNext(c, chains, e);
      }
    }
  }

  /** One redo, seen from one entry: waiting, it is written if it is bound; no longer waiting, its word
      stays. */
  lemma {:induction false} RedoWord(c: Ctx, q: Pass, es: seq<Entry>, e: Entry)
    requires ValidCtx(c) && Waitable(c, es) && c.lazy && !q.aborted && q.slot <= |q.saved| && e.sym < |c.dso.table.syms|
    ensures ValidItems(c, Items(es, Rela))
    ensures var r := Run(c, q, Items(es, Rela));
            !r.aborted && r.slot == q.slot && |r.saved| == |q.saved|
    ensures var r, at := Run(c, q, Items(es, Rela)), Address(c.dso, e);
            && (e in es ==> Read(r.mem, at) == Landing(c, Read(q.mem, at), e, e.addend))
            && (!IsTarget(c.dso, Items(es, Rela), at) ==> Read(r.mem, at) == Read(q.mem, at))
  {
    hide ValidCtx, Bind, Landing, Run, SlotFilled, DistinctTargets, IsTarget, Address;
    var items := Items(es, Rela);
    RedoCompacts(c, q, es);
    NoSlots(c.linker, items);
    RunSettles(c, q, items);
    if e in es {
      var j :| 0 <= j < |es| && es[j] == e;
      assert items[j] == Item(e, Rela);
      assert Landed(c, q, items, Run(c, q, items), j);
    }
  }

  /** Where the word of a waiting entry ends: as the first chain that binds it makes it. */
  lemma {:induction false} EndsAtFirstBound(c: Ctx, chains: seq<seq<Dso>>, q: Pass, es: seq<Entry>, e: Entry)
    requires ValidScopes(c, chains) && Waitable(c, es) && c.lazy && !c.stage2 && !q.aborted && q.slot <= |q.saved|
    requires e in es && e.sym < |c.dso.table.syms|
    ensures var r, at, f := Redos(c, chains, q, es), Address(c.dso, e), FirstBound(c, chains, e);
            && !r.aborted && r.slot <= |r.saved|
            && Read(r.mem, at)
               == if f == |chains| then Read(q.mem, at)
                  else Landing(Under(c, chains[f]), Read(q.mem, at), e, e.addend)
  {
    hide ValidCtx, Bind, Landing, Run, DistinctTargets, IsTarget, Address, StillWaiting, Survivors;
    if chains != [] {
      var n := |chains| - 1;
      var cc, waiting := Under(c, chains[n]), StillWaiting(c, chains[..n], es);
      var before := Redos(c, chains[..n], q, es).(deferred := []);
      EndsAtFirstBound(c, chains[..n], q, es, e);
      WaitingAre(c, chains[..n], es);
      FirstBoundNext(c, chains, e);
      RedoWord(cc, before, waiting, e);
      if FirstBound(c, chains[..n], e) == n {
        MissingLands(cc, e);
      } else {
        GoneIsElsewhere(c, es, waiting, e);
      }
    }
  }

  lemma {:induction false} GoneIsElsewhere(c: Ctx, es: seq<Entry>, waiting: seq<Entry>, e: Entry)
    requires Waitable(c, es) && e in es && e !in waiting && forall w :: w in waiting ==> w in es
    ensures !IsTarget(c.dso, Items(waiting, Rela), Address(c.dso, e))
  {
    hide Address;
    var later, items := Items(waiting, Rela), Items(es, Rela);
    var i :| 0 <= i < |es| && es[i] == e;
    assert items[i].e == e;
    forall k | 0 <= k < |later| ensures Address(c.dso, later[k].e) != Address(c.dso, e) {
      assert later[k].e in waiting;
      var j :| 0 <= j < |es| && es[j] == later[k].e;
      assert items[j].e == es[j] && j != i;
    }
  }

  /** Over any number of calls, with a symbol chain that grows as libraries are made global, the word of
      a deferred entry ends as an eager pass under the last chain leaves it, although each redo is under a
      scope that need not contain the one the entry was deferred under. */
  lemma {:induction false} GrowingScopesAreEager(c: Ctx, chains: seq<seq<Dso>>, p: Pass, items: seq<Item>, k: nat)
    requires ValidCtx(c) && ValidScopes(c, chains) && chains != [] && ValidItems(c, items) && k < |items|
    requires forall i :: 0 <= i < |chains| ==> chains[i] <= chains[|chains| - 1]
    requires c.lazy && !c.stage2 && DistinctTargets(c.dso, items)
    requires p.deferred == [] && p.slot + Slots(c.linker, items) <= |p.saved|
    requires !Run(c, p, items).aborted && !Run(Eager(Under(c, chains[|chains| - 1])), p, items).aborted
    requires PutOff(c, items[k])
    ensures var r, at := Run(c, p, items), Address(c.dso, items[k].e);
            && Deferrable(c, r.deferred)
            && Read(Redos(c, chains, r, r.deferred).mem, at)
               == Read(Run(Eager(Under(c, chains[|chains| - 1])), p, items).mem, at)
  {
    hide ValidCtx, Bind, Landing, Run, DistinctTargets, Address, Redos, Settled, PutOff, Slots, Postponed, Waiting;
    var last, r, e := chains[|chains| - 1], Run(c, p, items), Waiting(items[k]);
    LazySetting(c, last, p, items);
    DeferredWord(c, last, p, items, k);
    EndsAtFirstBound(c, chains, r, r.deferred, e);
    BoundAtLast(c, chains, e);
    var f := FirstBound(c, chains, e);
    if f < |chains| {
      SameBindingLands(Under(c, chains[f]), Under(c, last), e);
    } else {
      MissingLands(Under(c, last), e);
    }
  }

  lemma {:induction false} DeferredWord(c: Ctx, chain: seq<Dso>, p: Pass, items: seq<Item>, k: nat)
    requires ValidCtx(c) && ValidCtx(Under(c, chain)) && ValidItems(c, items) && k < |items|
    requires c.lazy && !c.stage2 && DistinctTargets(c.dso, items)
    requires p.deferred == [] && p.slot + Slots(c.linker, items) <= |p.saved|
    requires !Run(c, p, items).aborted && !Run(Eager(Under(c, chain)), p, items).aborted
    requires PutOff(c, items[k])
    ensures var r, e, g := Run(c, p, items), Waiting(items[k]), Run(Eager(Under(c, chain)), p, items);
            && Waitable(c, r.deferred) && e in r.deferred && e.sym < |c.dso.table.syms| && Bind(c, e) == Missing
            && r.slot <= |r.saved| && Address(c.dso, e) == Address(c.dso, items[k].e)
            && Read(g.mem, Address(c.dso, e)) == Landing(Under(c, chain), Read(r.mem, Address(c.dso, e)), e, e.addend)
  {
    hide ValidCtx, Bind, Landing, Run, DistinctTargets, SlotFilled, OthersKept, Postponed, Wrap, Slots;
    var r, g := Run(c, p, items), Run(Eager(Under(c, chain)), p, items);
    LazySetting(c, chain, p, items);
    PostponedDistinct(c, items);
    var j := PostponedHas(c, items, k);
    assert Landed(c, p, items, r, k) && Landed(Eager(Under(c, chain)), p, items, g, k);
    MissingLands(c, items[k].e);
    BindIgnores(c, items[k]);
    WaitingLandsAlike(Under(c, chain), Read(r.mem, Address(c.dso, items[k].e)), items[k]);
  }

  /** What the first chain to bind a strong reference finds, the last and longest still finds. */
  lemma {:induction false} BoundAtLast(c: Ctx, chains: seq<seq<Dso>>, e: Entry)
    requires ValidCtx(c) && ValidScopes(c, chains) && chains != [] && e.sym < |c.dso.table.syms|
    requires forall i :: 0 <= i < |chains| ==> chains[i] <= chains[|chains| - 1]
    requires Bind(c, e) == Missing
    ensures var f := FirstBound(c, chains, e);
            if f < |chains| then Bind(Under(c, chains[|chains| - 1]), e) == Bind(Under(c, chains[f]), e)
            else Bind(Under(c, chains[|chains| - 1]), e) == Missing
  {
    hide ValidCtx, Bind;
    FirstBoundIs(c, chains, e);
    var f, last := FirstBound(c, chains, e), chains[|chains| - 1];
    if f < |chains| {
      var more := last[|chains[f]|..];
      assert last == chains[f] + more;
      StrongStays(c, Under(c, chains[f]), e);
      BindStable(Under(c, chains[f]), more, e);
      assert Under(Under(c, chains[f]), chains[f] + more) == Under(c, last);
    }
  }

  lemma {:induction false} StrongStays(c: Ctx, d: Ctx, e: Entry)
    requires ValidCtx(c) && ValidCtx(d) && c.dso == d.dso && e.sym < |c.dso.table.syms| && Bind(c, e) == Missing
    ensures Bind(d, e) != Bound(None, None)
  {
    hide ValidCtx;
  }

  lemma {:induction false} SameBindingLands(c: Ctx, d: Ctx, e: Entry)
    requires ValidCtx(c) && ValidCtx(d) && c.dso == d.dso && c.linker == d.linker && e.sym < |c.dso.table.syms|
    requires Bind(c, e) == Bind(d, e)
    ensures forall w: word, a: word :: Landing(c, w, e, a) == Landing(d, w, e, a)
  {
    hide ValidCtx, Wrap, Bind;
  }
}
