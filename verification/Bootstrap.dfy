/** The dynamic linker relocating itself: stage 1 (`_dlstart_c`) applies the relative relocations, stage
    2 (`__dls2`) the symbolic ones with only the linker in scope, stage 3 (`__dls3`) the symbolic ones
    again under the program's symbol chain.  Together they amount to one relocation of the file's image. */
module Bootstrap {
  import opened Basics
  import opened Words
  import opened Lookup
  import opened Relocs
  import opened LazyBinding
  import opened RelocMachine

  // ---------------------------------------------------------------- stage 1

  /** The relative entries of a REL table. */
  function ApplyRel(m: Memory, d: Dso, es: seq<Entry>): Memory {
    if es == [] then m
    else
      var r := ApplyRel(m, d, es[..|es| - 1]);
      var e := es[|es| - 1];
      if IsRelative(e) then r[Address(d, e) := Wrap(Read(r, Address(d, e)) + d.base)] else r
  }

  /** The relative entries of a RELA table. */
  function ApplyRela(m: Memory, d: Dso, es: seq<Entry>): Memory {
    if es == [] then m
    else
      var r := ApplyRela(m, d, es[..|es| - 1]);
      var e := es[|es| - 1];
      if IsRelative(e) then r[Address(d, e) := Wrap(d.base + e.addend)] else r
  }

  function StageOne(m: Memory, d: Dso, t: RelTables): Memory {
    ApplyRela(ApplyRel(AddBase(m, d.base, t.localGot), d, t.rel), d, t.rela)
  }

  class Startup {
    var mem: Memory

    constructor (mem: Memory)
      ensures this.mem == mem
    {
      this.mem := mem;
    }

    /** The loop over the local GOT. */
    method StartGot(base: word, localGot: seq<word>)
      modifies this
      ensures mem == AddBase(old(mem), base, localGot)
    {
      hide Wrap;
      ghost var m := mem;
      assert localGot[..0] == [];
      for i := 0 to |localGot|
        invariant mem == AddBase(m, base, localGot[..i])
      {
        assert localGot[..i + 1][..i] == localGot[..i];
        mem := mem[localGot[i] := Wrap(Read(mem, localGot[i]) + base)];
      }
      assert localGot[..|localGot|] == localGot;
    }

    /** The loop over DT_REL. */
    method StartRel(d: Dso, rel: seq<Entry>)
      modifies this
      ensures mem == ApplyRel(old(mem), d, rel)
    {
      hide Wrap, Address, IsRelative;
      ghost var m := mem;
      assert rel[..0] == [];
      for i := 0 to |rel|
        invariant mem == ApplyRel(m, d, rel[..i])
      {
        assert rel[..i + 1][..i] == rel[..i];
        if IsRelative(rel[i]) {
          mem := mem[Address(d, rel[i]) := Wrap(Read(mem, Address(d, rel[i])) + d.base)];
        }
      }
      assert rel[..|rel|] == rel;
    }

    /** The loop over DT_RELA. */
    method StartRela(d: Dso, rela: seq<Entry>)
      modifies this
      ensures mem == ApplyRela(old(mem), d, rela)
    {
      hide Wrap, Address, IsRelative;
      ghost var m := mem;
      assert rela[..0] == [];
      for i := 0 to |rela|
        invariant mem == ApplyRela(m, d, rela[..i])
      {
        assert rela[..i + 1][..i] == rela[..i];
        if IsRelative(rela[i]) {
          mem := mem[Address(d, rela[i]) := Wrap(d.base + rela[i].addend)];
        }
      }
      assert rela[..|rela|] == rela;
    }

    /** `_dlstart_c`, from the MIPS local GOT on. */
    method Start(d: Dso, t: RelTables)
      modifies this
      ensures mem == StageOne(old(mem), d, t)
    {
      hide AddBase, ApplyRel, ApplyRela;
      StartGot(d.base, t.localGot);
      StartRel(d, t.rel);
      StartRela(d, t.rela);
    }
  }

  ghost predicate Among(d: Dso, es: seq<Entry>, a: word) {
    exists k :: 0 <= k < |es| && IsRelative(es[k]) && Address(d, es[k]) == a
  }

  ghost predicate DistinctWords(ws: seq<word>) {
    forall i, j :: 0 <= i < j < |ws| ==> ws[i] != ws[j]
  }

  ghost predicate DistinctEntries(d: Dso, es: seq<Entry>) {
    forall i, j :: 0 <= i < j < |es| ==> Address(d, es[i]) != Address(d, es[j])
  }

  lemma {:induction false} AddBaseLands(m: Memory, base: word, targets: seq<word>, a: word)
    requires DistinctWords(targets)
    ensures Read(AddBase(m, base, targets), a) == if a in targets then Wrap(Read(m, a) + base) else Read(m, a)
  {
    hide Wrap;
    if targets != [] {
      var n := |targets| - 1;
      AddBaseLands(m, base, targets[..n], a);
      assert targets == targets[..n] + [targets[n]];
    }
  }

  lemma {:induction false} AmongPrefix(d: Dso, es: seq<Entry>, a: word)
    requires es != []
    ensures Among(d, es, a) <==>
              Among(d, es[..|es| - 1], a) || (IsRelative(es[|es| - 1]) && Address(d, es[|es| - 1]) == a)
  {
    hide Address, IsRelative;
    var n := |es| - 1;
    if Among(d, es[..n], a) {
      var k :| 0 <= k < n && IsRelative(es[..n][k]) && Address(d, es[..n][k]) == a;
      assert IsRelative(es[k]) && Address(d, es[k]) == a;
    }
    if Among(d, es, a) {
      var k :| 0 <= k < |es| && IsRelative(es[k]) && Address(d, es[k]) == a;
      if k < n {
        assert es[..n][k] == es[k];
      }
    }
  }

  lemma {:induction false} LastIsNew(d: Dso, es: seq<Entry>)
    requires es != [] && DistinctEntries(d, es)
    ensures DistinctEntries(d, es[..|es| - 1]) && !Among(d, es[..|es| - 1], Address(d, es[|es| - 1]))
  {
    hide Address, IsRelative;
  }

  lemma {:induction false} ApplyRelLands(m: Memory, d: Dso, es: seq<Entry>, a: word)
    requires DistinctEntries(d, es)
    ensures Read(ApplyRel(m, d, es), a) == if Among(d, es, a) then Wrap(Read(m, a) + d.base) else Read(m, a)
  {
    hide Wrap, Address, Among, DistinctEntries, IsRelative;
    if es == [] {
      assert !Among(d, es, a) by {
        NoneAmong(d, a);
      }
    } else {
      var n := |es| - 1;
      LastIsNew(d, es);
      AmongPrefix(d, es, a);
      ApplyRelLands(m, d, es[..n], a);
    }
  }

  lemma {:induction false} NoneAmong(d: Dso, a: word)
    ensures !Among(d, [], a)
  {}

  lemma {:induction false} ApplyRelaLands(m: Memory, d: Dso, es: seq<Entry>, a: word)
    requires DistinctEntries(d, es)
    ensures !Among(d, es, a) ==> Read(ApplyRela(m, d, es), a) == Read(m, a)
    ensures forall k :: 0 <= k < |es| && IsRelative(es[k]) && Address(d, es[k]) == a ==>
              Read(ApplyRela(m, d, es), a) == Wrap(d.base + es[k].addend)
  {
    hide Wrap, Address, IsRelative;
    if es != [] {
      var n := |es| - 1;
      LastIsNew(d, es);
      AmongPrefix(d, es, a);
      ApplyRelaLands(m, d, es[..n], a);
      forall k | 0 <= k < n && IsRelative(es[k]) && Address(d, es[k]) == a
        ensures Read(ApplyRela(m, d, es), a) == Wrap(d.base + es[k].addend)
      {
        assert es[..n][k] == es[k] && Address(d, es[n]) != a;
      }
    }
  }

  // ---------------------------------------------------------------- reloc_all as one pass

  /** The entries of all four tables in the order in which they are processed. */
  function AllItems(c: Ctx, t: RelTables): seq<Item> {
    Items(t.got, Rel) + Items(t.jmprel, t.jmpForm) + Items(t.rel, RelForm(c)) + Items(t.rela, Rela)
  }

  lemma {:induction false} StepSlotFree(c: Ctx, p: Pass, i: Item, s: nat)
    requires ValidCtx(c) && i.e.sym < |c.dso.table.syms| && i.form != RelSaved
    ensures Step(c, p.(slot := s), i) == Step(c, p, i).(slot := s) && Step(c, p, i).slot == p.slot
  {
    hide ValidCtx, Bind, Value, Wrap;
  }

  /** A table whose addends are not saved neither reads nor moves the slot. */
  lemma {:induction false} SlotFree(c: Ctx, p: Pass, items: seq<Item>, s: nat)
    requires ValidCtx(c) && ValidItems(c, items) && forall k :: 0 <= k < |items| ==> items[k].form != RelSaved
    ensures Run(c, p.(slot := s), items) == Run(c, p, items).(slot := s) && Run(c, p, items).slot == p.slot
  {
    hide ValidCtx, Step;
    if items != [] {
      var n := |items| - 1;
      SlotFree(c, p, items[..n], s);
      StepSlotFree(c, Run(c, p, items[..n]), items[n], s);
    }
  }

  lemma {:induction false} AllItemsValid(c: Ctx, t: RelTables)
    requires ValidTables(c, t)
    ensures ValidItems(c, AllItems(c, t))
    ensures ValidItems(c, Items(t.got, Rel) + Items(t.jmprel, t.jmpForm))
    ensures ValidItems(c, Items(t.got, Rel) + Items(t.jmprel, t.jmpForm) + Items(t.rel, RelForm(c)))
  {
    hide Items;
  }

  lemma {:induction false} RelocAllIsRun(c: Ctx, p: Pass, t: RelTables)
    requires ValidCtx(c) && ValidTables(c, t) && p.slot == 0
    ensures ValidItems(c, AllItems(c, t))
    ensures RelocAllRun(c, p, t) == Run(c, LocalPart(c, p, t), AllItems(c, t)).(slot := 0)
  {
    hide ValidCtx, ValidItems, Run, Items, AddBase;
    var q0 := LocalPart(c, p, t);
    AllItemsValid(c, t);
    var i1, i2, i3, i4 := Items(t.got, Rel), Items(t.jmprel, t.jmpForm), Items(t.rel, RelForm(c)), Items(t.rela, Rela);
    RunConcat(c, q0, i1, i2);
    RunConcat(c, q0, i1 + i2, i3);
    RunConcat(c, q0, i1 + i2 + i3, i4);
    var q1 := Run(c, q0, i1);
    var q2 := Run(c, q1, i2);
    SlotFree(c, q0, i1, 0);
    assert q1.(slot := 0) == q1;
    SlotFree(c, q1, i2, 0);
    assert q2.(slot := 0) == q2;
    SlotFree(c, Run(c, q2, i3), i4, 0);
  }

  /** `reloc_all` adds the base once to every word of a local GOT, and leaves the linker's alone. */
  lemma {:induction false} LocalGotRelocated(c: Ctx, p: Pass, t: RelTables, a: word)
    requires ValidCtx(c) && ValidTables(c, t) && p.slot == 0 && Slots(c.linker, AllItems(c, t)) <= |p.saved|
    requires DistinctTargets(c.dso, AllItems(c, t)) && DistinctWords(t.localGot)
    requires a in t.localGot && !IsTarget(c.dso, AllItems(c, t), a) && !RelocAllRun(c, p, t).aborted
    ensures Read(RelocAllRun(c, p, t).mem, a) == if c.linker then Read(p.mem, a) else Wrap(Read(p.mem, a) + c.dso.base)
  {
    hide ValidCtx, ValidItems, Run, Items, AllItems, RelocAllRun, IsTarget, DistinctTargets, Landed, SlotFilled, Wrap;
    var q := LocalPart(c, p, t);
    RelocAllIsRun(c, p, t);
    RunSettles(c, q, AllItems(c, t));
    AddBaseLands(p.mem, c.dso.base, t.localGot, a);
  }

  // ---------------------------------------------------------------- stages 2 and 3

  /** A reference with nothing to take a module number or offset from; the code dereferences null. */
  ghost predicate NullAt(c: Ctx, e: Entry)
    requires ValidCtx(c) && e.sym < |c.dso.table.syms|
  {
    !Skipped(c.linker, e) && Bind(c, e) == Bound(None, None) && e.typ in {DtpMod, TpOff, TpOffNeg}
  }

  lemma {:induction false} StepAborts(c: Ctx, p: Pass, i: Item)
    requires ValidCtx(c) && i.e.sym < |c.dso.table.syms| && !c.runtime && !p.aborted
    ensures Step(c, p, i).aborted <==> NullAt(c, i.e)
  {
    hide ValidCtx, Wrap;
    BoundTogether(c, i.e);
  }

  lemma {:induction false} BoundTogether(c: Ctx, e: Entry)
    requires ValidCtx(c) && e.sym < |c.dso.table.syms|
    ensures Bind(c, e).Bound? && Bind(c, e).dso.None? ==> Bind(c, e) == Bound(None, None)
  {}

  /** Outside `runtime` only a null module ends a pass, whatever the addends and the memory. */
  lemma {:induction false} AbortsIff(c: Ctx, p: Pass, items: seq<Item>)
    requires ValidCtx(c) && ValidItems(c, items) && !c.runtime && !p.aborted
    ensures Run(c, p, items).aborted <==> exists k :: 0 <= k < |items| && NullAt(c, items[k].e)
  {
    hide ValidCtx, Step, NullAt;
    if items != [] {
      var n := |items| - 1;
      var q := Run(c, p, items[..n]);
      AbortsIff(c, p, items[..n]);
      if q.aborted {
        AbortedStep(c, q, items[n]);
        var k :| 0 <= k < n && NullAt(c, items[..n][k].e);
        assert NullAt(c, items[k].e);
      } else {
        StepAborts(c, q, items[n]);
        forall k | 0 <= k < n ensures !NullAt(c, items[k].e) {
          assert items[..n][k] == items[k];
        }
      }
    }
  }

  lemma {:induction false} AbortedStep(c: Ctx, p: Pass, i: Item)
    requires ValidCtx(c) && i.e.sym < |c.dso.table.syms| && p.aborted
    ensures Step(c, p, i) == p
  {}

  /** The circumstances of the two stages: the linker alone in scope, then the program's chain. */
  function StageTwo(d: Dso): Ctx {
    Ctx(d, [d], true, true, false, false)
  }

  function StageThree(d: Dso, chain: seq<Dso>): Ctx {
    Ctx(d, chain, true, false, false, false)
  }

  /** A reference bound with the linker alone in scope is bound in any chain the linker is part of. */
  lemma {:induction false} BoundAgain(d: Dso, chain: seq<Dso>, at: nat, e: Entry)
    requires ValidCtx(StageTwo(d)) && ValidCtx(StageThree(d, chain)) && e.sym < |d.table.syms|
    requires at < |chain| && chain[at] == d
    ensures Bind(StageTwo(d), e).Bound? ==> Bind(StageThree(d, chain), e).Bound?
  {
    hide Resolve;
    if e.sym != 0 && d.table.syms[e.sym].typ != STT_SECTION {
      var s := NameOf(d.table, e.sym);
      assert Tables([d]) == [Tables(chain)[at]];
      if Resolve(Tables([d]), s, e.typ == Plt).Some? {
        MemberResolves(Tables(chain), at, s, e.typ == Plt);
      }
    }
  }

  /** The addend an entry has in the image. */
  function OriginalAddend(m: Memory, d: Dso, i: Item): word {
    if i.form == Rela then i.e.addend else if PltOrGot(i.e) then 0 else Read(m, Address(d, i.e))
  }

  /** Whatever stage 2 wrote, stage 3 writes over. */
  lemma {:induction false} LandsOver(d: Dso, chain: seq<Dso>, at: nat, e: Entry, w: word, a2: word, a3: word)
    requires ValidCtx(StageTwo(d)) && ValidCtx(StageThree(d, chain)) && e.sym < |d.table.syms|
    requires at < |chain| && chain[at] == d && !NullAt(StageTwo(d), e) && !NullAt(StageThree(d, chain), e)
    ensures Landing(StageThree(d, chain), Landing(StageTwo(d), w, e, a2), e, a3)
            == Landing(StageThree(d, chain), w, e, a3)
  {
    hide ValidCtx, Bind, Wrap;
    BoundAgain(d, chain, at, e);
    BoundTogether(StageTwo(d), e);
    BoundTogether(StageThree(d, chain), e);
  }

  // ---------------------------------------------------------------- saved addends

  /** `symbolic_rel_cnt`: the entries `__dls2` counts to size the array of saved addends. */
  function SymbolicCount(es: seq<Entry>): nat {
    if es == [] then 0 else SymbolicCount(es[..|es| - 1]) + if IsRelative(es[|es| - 1]) then 0 else 1
  }

  lemma {:induction false} SlotsWithinCount(es: seq<Entry>)
    ensures Slots(true, Items(es, RelSaved)) <= SymbolicCount(es)
  {
    if es != [] {
      var n := |es| - 1;
      ItemsPrefix(es, RelSaved, n);
      SlotsWithinCount(es[..n]);
    }
  }

  lemma {:induction false} SlotsConcat(linker: bool, a: seq<Item>, b: seq<Item>)
    ensures Slots(linker, a + b) == Slots(linker, a) + Slots(linker, b)
  {
    if b == [] {
      assert a + b == a;
    } else {
      assert (a + b)[..|a + b| - 1] == a + b[..|b| - 1];
      SlotsConcat(linker, a, b[..|b| - 1]);
    }
  }

  /** The array is long enough for every slot that either pass uses. */
  lemma {:induction false} SavedIsEnough(c: Ctx, t: RelTables)
    requires c.linker && t.jmpForm != RelSaved
    ensures Slots(true, AllItems(c, t)) <= SymbolicCount(t.rel)
  {
    hide Items;
    TableSlots(c, t);
    SlotsWithinCount(t.rel);
    SlotsConcat(true, Items(t.got, Rel), Items(t.jmprel, t.jmpForm));
    SlotsConcat(true, Items(t.got, Rel) + Items(t.jmprel, t.jmpForm), Items(t.rel, RelForm(c)));
    SlotsConcat(true, Items(t.got, Rel) + Items(t.jmprel, t.jmpForm) + Items(t.rel, RelForm(c)), Items(t.rela, Rela));
  }

  // ---------------------------------------------------------------- two passes are one

  function Fresh(m: Memory, saved: seq<word>): Pass {
    Pass(m, saved, 0, [], [], false)
  }

  /** The linker's tables are fit for being relocated twice: every word has one entry, and a JMPREL in
      REL form holds PLT and GOT entries, whose addend is not in memory. */
  ghost predicate FitForTwoPasses(d: Dso, t: RelTables) {
    && ValidTables(StageTwo(d), t)
    && DistinctTargets(d, AllItems(StageTwo(d), t))
    && (forall k :: 0 <= k < |t.got| ==> PltOrGot(t.got[k]))
    && (t.jmpForm == Rel ==> forall k :: 0 <= k < |t.jmprel| ==> PltOrGot(t.jmprel[k]) || Skipped(true, t.jmprel[k]))
  }

  ghost function AfterStageTwo(d: Dso, m: Memory, saved: seq<word>, t: RelTables): Pass
    requires ValidCtx(StageTwo(d)) && ValidTables(StageTwo(d), t)
  {
    RelocAllRun(StageTwo(d), Fresh(m, saved), t)
  }

  ghost function AfterStageThree(d: Dso, chain: seq<Dso>, m: Memory, saved: seq<word>, t: RelTables): Pass
    requires ValidCtx(StageTwo(d)) && ValidCtx(StageThree(d, chain)) && ValidTables(StageTwo(d), t)
  {
    var r := AfterStageTwo(d, m, saved, t);
    RelocAllRun(StageThree(d, chain), Fresh(r.mem, r.saved), t)
  }

  /** Both stages read the same tables in the same forms, hence use the same slot for each entry. */
  lemma {:induction false} SameItems(d: Dso, chain: seq<Dso>, t: RelTables)
    ensures AllItems(StageTwo(d), t) == AllItems(StageThree(d, chain), t)
    ensures ValidTables(StageTwo(d), t) <==> ValidTables(StageThree(d, chain), t)
    ensures ValidTables(StageTwo(d), t) ==> ValidItems(StageTwo(d), AllItems(StageTwo(d), t))
    ensures ValidTables(StageTwo(d), t) ==> ValidItems(StageThree(d, chain), AllItems(StageTwo(d), t))
  {
    if ValidTables(StageTwo(d), t) {
      AllItemsValid(StageTwo(d), t);
    }
  }

  /** An entry whose addend could be clobbered has a slot. */
  lemma {:induction false} ClobberedHasSlot(d: Dso, t: RelTables, k: nat)
    requires FitForTwoPasses(d, t) && k < |AllItems(StageTwo(d), t)|
    ensures var i := AllItems(StageTwo(d), t)[k];
            Skipped(true, i.e) || i.form == Rela || PltOrGot(i.e) || i.form == RelSaved
  {
    hide DistinctTargets, ValidTables;
    var g, j, r := Items(t.got, Rel), Items(t.jmprel, t.jmpForm), Items(t.rel, RelSaved);
    var i := AllItems(StageTwo(d), t)[k];
    if k < |g| {
      assert i == g[k];
    } else if k < |g| + |j| {
      assert i == j[k - |g|];
    } else if k < |g| + |j| + |r| {
      assert i == r[k - |g| - |j|];
    } else {
      assert i == Items(t.rela, Rela)[k - |g| - |j| - |r|];
    }
  }

  /** After stages 2 and 3 the word of entry `k` is what the final scope and the original addend give. */
  lemma {:induction false} StagesLand(d: Dso, chain: seq<Dso>, at: nat, m: Memory, saved: seq<word>, t: RelTables,
      k: nat)
    requires ValidCtx(StageTwo(d)) && ValidCtx(StageThree(d, chain)) && at < |chain| && chain[at] == d
    requires FitForTwoPasses(d, t) && SymbolicCount(t.rel) < |saved| && k < |AllItems(StageTwo(d), t)|
    requires !AfterStageTwo(d, m, saved, t).aborted && !AfterStageThree(d, chain, m, saved, t).aborted
    ensures ValidItems(StageThree(d, chain), AllItems(StageTwo(d), t))
    ensures var i := AllItems(StageTwo(d), t)[k];
            Read(AfterStageThree(d, chain, m, saved, t).mem, Address(d, i.e))
            == Landing(StageThree(d, chain), Read(m, Address(d, i.e)), i.e, OriginalAddend(m, d, i))
  {
    hide ValidCtx, ValidItems, Run, Items, AllItems, Landing, OthersKept, DistinctTargets, Bind, Wrap, SymbolicCount,
        RelocAllRun;
    var c2, c3, items := StageTwo(d), StageThree(d, chain), AllItems(StageTwo(d), t);
    var p2 := Fresh(m, saved);
    SameItems(d, chain, t);
    SavedIsEnough(c2, t);
    RelocAllIsRun(c2, p2, t);
    RunSettles(c2, p2, items);
    var r2 := Run(c2, p2, items);
    var p3 := Fresh(r2.mem, r2.saved);
    RelocAllIsRun(c3, p3, t);
    RunSettles(c3, p3, items);
    var r3 := Run(c3, p3, items);
    AbortsIff(c2, p2, items);
    AbortsIff(c3, p3, items);
    assert Landed(c2, p2, items, r2, k) && SlotFilled(c2, p2, items, r2, k) && Landed(c3, p3, items, r3, k);
    ClobberedHasSlot(d, t, k);
    var i := items[k];
    var w := Read(m, Address(d, i.e));
    LandsOver(d, chain, at, i.e, w, AddendOf(c2, p2, items, k), OriginalAddend(m, d, i));
    LandingSkipped(c3, i.e);
    assert !Skipped(true, i.e) ==> AddendOf(c3, p3, items, k) == OriginalAddend(m, d, i);
  }

  lemma {:induction false} StagesKeepOthers(d: Dso, chain: seq<Dso>, m: Memory, saved: seq<word>, t: RelTables, a: word)
    requires ValidCtx(StageTwo(d)) && ValidCtx(StageThree(d, chain))
    requires FitForTwoPasses(d, t) && SymbolicCount(t.rel) < |saved|
    requires !AfterStageTwo(d, m, saved, t).aborted && !AfterStageThree(d, chain, m, saved, t).aborted
    requires !IsTarget(d, AllItems(StageTwo(d), t), a)
    ensures Read(AfterStageThree(d, chain, m, saved, t).mem, a) == Read(m, a)
  {
    hide ValidCtx, ValidItems, Run, Items, AllItems, Landed, SlotFilled, DistinctTargets, Bind, Wrap, IsTarget,
        SymbolicCount, RelocAllRun;
    var c2, c3, items := StageTwo(d), StageThree(d, chain), AllItems(StageTwo(d), t);
    SameItems(d, chain, t);
    SavedIsEnough(c2, t);
    RelocAllIsRun(c2, Fresh(m, saved), t);
    RunSettles(c2, Fresh(m, saved), items);
    var r2 := Run(c2, Fresh(m, saved), items);
    RelocAllIsRun(c3, Fresh(r2.mem, r2.saved), t);
    RunSettles(c3, Fresh(r2.mem, r2.saved), items);
  }

  /** The tables as any other DSO's: no addend is saved, all are read from memory. */
  function Plain(items: seq<Item>): (r: seq<Item>)
    ensures |r| == |items|
    ensures forall k :: 0 <= k < |items| ==> r[k] == Item(items[k].e, if items[k].form
        == RelSaved then Rel else items[k].form)
  {
    seq(|items|, k requires 0 <= k < |items| => Item(items[k].e, if items[k].form
        == RelSaved then Rel else items[k].form))
  }

  lemma {:induction false} PlainLands(c: Ctx, m: Memory, items: seq<Item>, k: nat)
    requires ValidCtx(c) && ValidItems(c, items) && DistinctTargets(c.dso, items) && !c.runtime && k < |items|
    requires forall j :: 0 <= j < |items| ==> !NullAt(c, items[j].e)
    ensures ValidItems(c, Plain(items))
    ensures var r := Run(c, Fresh(m, []), Plain(items));
            && OthersKept(c, Fresh(m, []), Plain(items), r)
            && Read(r.mem, Address(c.dso, items[k].e))
               == Landing(c, Read(m, Address(c.dso, items[k].e)), items[k].e, OriginalAddend(m, c.dso, items[k]))
  {
    hide ValidCtx, Run, Landing, OthersKept, Bind, Wrap, NullAt;
    var plain, p := Plain(items), Fresh(m, []);
    assert forall j :: 0 <= j < |items| ==> plain[j].e == items[j].e;
    NoSlots(c.linker, plain);
    AbortsIff(c, p, plain);
    RunSettles(c, p, plain);
    assert Landed(c, p, plain, Run(c, p, plain), k);
  }

  lemma {:induction false} PlainKeepsOthers(c: Ctx, m: Memory, items: seq<Item>, a: word)
    requires ValidCtx(c) && ValidItems(c, items) && DistinctTargets(c.dso, items) && !c.runtime
    requires forall j :: 0 <= j < |items| ==> !NullAt(c, items[j].e)
    requires !IsTarget(c.dso, items, a)
    ensures ValidItems(c, Plain(items)) && Read(Run(c, Fresh(m, []), Plain(items)).mem, a) == Read(m, a)
  {
    hide ValidCtx, Run, Landed, Bind, Wrap, NullAt;
    var plain, p := Plain(items), Fresh(m, []);
    assert forall j :: 0 <= j < |items| ==> plain[j].e == items[j].e;
    NoSlots(c.linker, plain);
    AbortsIff(c, p, plain);
    RunSettles(c, p, plain);
  }

  lemma {:induction false} NoNullModules(d: Dso, chain: seq<Dso>, m: Memory, saved: seq<word>, t: RelTables)
    requires ValidCtx(StageTwo(d)) && ValidCtx(StageThree(d, chain)) && ValidTables(StageTwo(d), t)
    requires !AfterStageThree(d, chain, m, saved, t).aborted
    ensures ValidItems(StageThree(d, chain), AllItems(StageTwo(d), t))
    ensures forall k :: 0 <= k < |AllItems(StageTwo(d), t)| ==>
              !NullAt(StageThree(d, chain), AllItems(StageTwo(d), t)[k].e)
  {
    hide ValidCtx, ValidItems, Run, Items, AllItems, RelocAllRun;
    var c3 := StageThree(d, chain);
    var r2 := AfterStageTwo(d, m, saved, t);
    SameItems(d, chain, t);
    RelocAllIsRun(c3, Fresh(r2.mem, r2.saved), t);
    AbortsIff(c3, Fresh(r2.mem, r2.saved), AllItems(c3, t));
  }

  /** Relocating the linker in stage 2 and again in stage 3 leaves the memory of one relocation pass with
      the original addends under the final symbol scope. */
  lemma {:induction false} TwoPassesAreOne(d: Dso, chain: seq<Dso>, at: nat, m: Memory, saved: seq<word>,
      t: RelTables, a: word)
    requires ValidCtx(StageTwo(d)) && ValidCtx(StageThree(d, chain)) && at < |chain| && chain[at] == d
    requires FitForTwoPasses(d, t) && SymbolicCount(t.rel) < |saved|
    requires !AfterStageTwo(d, m, saved, t).aborted && !AfterStageThree(d, chain, m, saved, t).aborted
    ensures var items := Plain(AllItems(StageTwo(d), t));
            && ValidItems(StageThree(d, chain), items)
            && Read(AfterStageThree(d, chain, m, saved, t).mem, a)
               == Read(Run(StageThree(d, chain), Fresh(m, []), items).mem, a)
  {
    hide ValidCtx, ValidItems, Run, Items, AllItems, Landing, OthersKept, DistinctTargets, Bind, Wrap, SymbolicCount,
         AfterStageTwo, AfterStageThree, NullAt, Plain, ValidTables;
    var items := AllItems(StageTwo(d), t);
    NoNullModules(d, chain, m, saved, t);
    if IsTarget(d, items, a) {
      var k :| 0 <= k < |items| && Address(d, items[k].e) == a;
      StagesLand(d, chain, at, m, saved, t, k);
      PlainLands(StageThree(d, chain), m, items, k);
    } else {
      StagesKeepOthers(d, chain, m, saved, t, a);
      PlainKeepsOthers(StageThree(d, chain), m, items, a);
    }
  }

  // ---------------------------------------------------------------- the three stages together

  function RelAt(t: RelTables, k: nat): nat {
    |t.got| + |t.jmprel| + k
  }

  function RelaAt(t: RelTables, k: nat): nat {
    |t.got| + |t.jmprel| + |t.rel| + k
  }

  lemma {:induction false} WhereItemsAre(d: Dso, t: RelTables)
    ensures var items := AllItems(StageTwo(d), t);
            && |items| == Total(t)
            && (forall k :: 0 <= k < |t.rel| ==> items[RelAt(t, k)] == Item(t.rel[k], RelSaved))
            && (forall k :: 0 <= k < |t.rela| ==> items[RelaAt(t, k)] == Item(t.rela[k], Rela))
  {
    var c := StageTwo(d);
    var got, jmprel, rel, rela := Items(t.got, Rel), Items(t.jmprel, t.jmpForm), Items(t.rel, RelForm(c)),
        Items(t.rela, Rela);
    assert AllItems(c, t) == got + jmprel + rel + rela;
    forall k | 0 <= k < |t.rel| ensures (got + jmprel + rel + rela)[RelAt(t, k)] == rel[k] {}
  }

  /** The linker's image: its relocations, and local GOT words that no relocation touches. */
  ghost predicate ValidImage(d: Dso, t: RelTables) {
    && FitForTwoPasses(d, t) && DistinctWords(t.localGot)
    && forall j :: 0 <= j < |t.localGot| ==> !IsTarget(d, AllItems(StageTwo(d), t), t.localGot[j])
  }

  /** Each word belongs to the relative entries of at most one table. */
  lemma {:induction false} TablesApart(d: Dso, t: RelTables)
    requires ValidImage(d, t)
    ensures DistinctEntries(d, t.rel) && DistinctEntries(d, t.rela)
    ensures forall k, l :: 0 <= k < |t.rel| && 0 <= l < |t.rela| ==> Address(d, t.rel[k]) != Address(d, t.rela[l])
    ensures forall k :: 0 <= k < |t.rel| ==> Address(d, t.rel[k]) !in t.localGot
    ensures forall k :: 0 <= k < |t.rela| ==> Address(d, t.rela[k]) !in t.localGot
  {
    hide Address, Items, AllItems, ValidTables;
    var items := AllItems(StageTwo(d), t);
    WhereItemsAre(d, t);
    forall i, j | 0 <= i < j < |t.rel| ensures Address(d, t.rel[i]) != Address(d, t.rel[j]) {
      assert Address(d, items[RelAt(t, i)].e) != Address(d, items[RelAt(t, j)].e);
    }
    forall i, j | 0 <= i < j < |t.rela| ensures Address(d, t.rela[i]) != Address(d, t.rela[j]) {
      assert Address(d, items[RelaAt(t, i)].e) != Address(d, items[RelaAt(t, j)].e);
    }
    forall k, l | 0 <= k < |t.rel| && 0 <= l < |t.rela| ensures Address(d, t.rel[k]) != Address(d, t.rela[l]) {
      assert Address(d, items[RelAt(t, k)].e) != Address(d, items[RelaAt(t, l)].e);
    }
    forall k | 0 <= k < |t.rel| ensures Address(d, t.rel[k]) !in t.localGot {
      assert IsTarget(d, items, Address(d, items[RelAt(t, k)].e));
    }
    forall k | 0 <= k < |t.rela| ensures Address(d, t.rela[k]) !in t.localGot {
      assert IsTarget(d, items, Address(d, items[RelaAt(t, k)].e));
    }
  }

  lemma {:induction false} StageOneLands(d: Dso, m: Memory, t: RelTables, a: word)
    requires ValidImage(d, t)
    ensures var r := Read(StageOne(m, d, t), a);
            && (a in t.localGot || Among(d, t.rel, a) ==> r == Wrap(Read(m, a) + d.base))
            && (forall k :: 0 <= k < |t.rela| && IsRelative(t.rela[k]) && Address(d, t.rela[k]) == a ==>
                  r == Wrap(d.base + t.rela[k].addend))
            && (a !in t.localGot && !Among(d, t.rel, a) && !Among(d, t.rela, a) ==> r == Read(m, a))
  {
    hide Address, Wrap, AllItems, FitForTwoPasses, IsRelative;
    TablesApart(d, t);
    var m1 := AddBase(m, d.base, t.localGot);
    AddBaseLands(m, d.base, t.localGot, a);
    ApplyRelLands(m1, d, t.rel, a);
    ApplyRelaLands(ApplyRel(m1, d, t.rel), d, t.rela, a);
  }

  /** Memory after all three stages. */
  ghost function Final(d: Dso, chain: seq<Dso>, m: Memory, saved: seq<word>, t: RelTables): Pass
    requires ValidCtx(StageTwo(d)) && ValidCtx(StageThree(d, chain)) && ValidTables(StageTwo(d), t)
  {
    AfterStageThree(d, chain, StageOne(m, d, t), saved, t)
  }

  ghost predicate Started(d: Dso, chain: seq<Dso>, at: nat, m: Memory, saved: seq<word>,
      t: RelTables) {
    && ValidCtx(StageTwo(d)) && ValidCtx(StageThree(d, chain)) && at < |chain| && chain[at] == d
    && ValidImage(d, t) && SymbolicCount(t.rel) < |saved|
    && !AfterStageTwo(d, StageOne(m, d, t), saved, t).aborted
    && !Final(d, chain, m, saved, t).aborted
  }

  /** Every relative relocation of REL and RELA and every local GOT word is applied exactly once. */
  lemma {:induction false} RelativeOnce(d: Dso, chain: seq<Dso>, at: nat, m: Memory,
      saved: seq<word>, t: RelTables)
    requires Started(d, chain, at, m, saved, t)
    ensures var r := Final(d, chain, m, saved, t).mem;
            && (forall j :: 0 <= j < |t.localGot| ==> Read(r, t.localGot[j]) == Wrap(Read(m, t.localGot[j]) + d.base))
            && (forall k :: 0 <= k < |t.rel| && IsRelative(t.rel[k]) ==>
                  Read(r, Address(d, t.rel[k])) == Wrap(Read(m, Address(d, t.rel[k])) + d.base))
            && (forall k :: 0 <= k < |t.rela| && IsRelative(t.rela[k]) ==>
                  Read(r, Address(d, t.rela[k])) == Wrap(d.base + t.rela[k].addend))
  {
    hide ValidCtx, Address, Wrap, AllItems, IsRelative, AfterStageTwo, AfterStageThree, ValidTables, DistinctTargets,
        StageOne, Landing;
    var r := Final(d, chain, m, saved, t).mem;
    var m1 := StageOne(m, d, t);
    WhereItemsAre(d, t);
    forall j | 0 <= j < |t.localGot| ensures Read(r, t.localGot[j]) == Wrap(Read(m, t.localGot[j]) + d.base) {
      StageOneLands(d, m, t, t.localGot[j]);
      StagesKeepOthers(d, chain, m1, saved, t, t.localGot[j]);
    }
    forall k | 0 <= k < |t.rel| && IsRelative(t.rel[k])
      ensures Read(r, Address(d, t.rel[k])) == Wrap(Read(m, Address(d, t.rel[k])) + d.base)
    {
      StageOneLands(d, m, t, Address(d, t.rel[k]));
      StagesLand(d, chain, at, m1, saved, t, RelAt(t, k));
      LandingSkipped(StageThree(d, chain), t.rel[k]);
    }
    forall k | 0 <= k < |t.rela| && IsRelative(t.rela[k])
      ensures Read(r, Address(d, t.rela[k])) == Wrap(d.base + t.rela[k].addend)
    {
      StageOneLands(d, m, t, Address(d, t.rela[k]));
      StagesLand(d, chain, at, m1, saved, t, RelaAt(t, k));
      LandingSkipped(StageThree(d, chain), t.rela[k]);
    }
  }

  /** Every other entry ends as the final scope and the addend in the image give, and no other word changes. */
  lemma {:induction false} SymbolicOnce(d: Dso, chain: seq<Dso>, at: nat, m: Memory,
      saved: seq<word>, t: RelTables, k: nat)
    requires Started(d, chain, at, m, saved, t) && k < Total(t)
    ensures |AllItems(StageTwo(d), t)| == Total(t) && ValidItems(StageThree(d, chain), AllItems(StageTwo(d), t))
    ensures var i := AllItems(StageTwo(d), t)[k];
            !IsRelative(i.e) ==>
              Read(Final(d, chain, m, saved, t).mem, Address(d, i.e))
              == Landing(StageThree(d, chain), Read(m, Address(d, i.e)), i.e, OriginalAddend(m, d, i))
  {
    hide ValidCtx, Address, Wrap, AllItems, IsRelative, AfterStageTwo, AfterStageThree, ValidTables, StageOne,
        Landing, Items;
    WhereItemsAre(d, t);
    var i := AllItems(StageTwo(d), t)[k];
    var a := Address(d, i.e);
    var m1 := StageOne(m, d, t);
    StagesLand(d, chain, at, m1, saved, t, k);
    if !IsRelative(i.e) {
      StageOneLands(d, m, t, a);
      assert IsTarget(d, AllItems(StageTwo(d), t), a);
      assert a !in t.localGot;
      NotAmong(d, t, k);
    }
  }

  lemma {:induction false} NotAmong(d: Dso, t: RelTables, k: nat)
    requires DistinctTargets(d, AllItems(StageTwo(d), t)) && k < |AllItems(StageTwo(d), t)|
    requires !IsRelative(AllItems(StageTwo(d), t)[k].e)
    ensures var a := Address(d, AllItems(StageTwo(d), t)[k].e); !Among(d, t.rel, a) && !Among(d, t.rela, a)
  {
    hide Address, IsRelative, AllItems;
    var items := AllItems(StageTwo(d), t);
    WhereItemsAre(d, t);
    forall j | 0 <= j < |t.rel| && IsRelative(t.rel[j]) ensures Address(d, t.rel[j]) != Address(d, items[k].e) {
      assert items[RelAt(t, j)].e == t.rel[j] && RelAt(t, j) != k;
    }
    forall j | 0 <= j < |t.rela| && IsRelative(t.rela[j]) ensures Address(d, t.rela[j]) != Address(d, items[k].e) {
      assert items[RelaAt(t, j)].e == t.rela[j] && RelaAt(t, j) != k;
    }
  }

  lemma {:induction false} OthersUntouched(d: Dso, chain: seq<Dso>, at: nat, m: Memory,
      saved: seq<word>, t: RelTables, a: word)
    requires Started(d, chain, at, m, saved, t)
    requires a !in t.localGot && !IsTarget(d, AllItems(StageTwo(d), t), a)
    ensures Read(Final(d, chain, m, saved, t).mem, a) == Read(m, a)
  {
    hide ValidCtx, Address, Wrap, AllItems, IsRelative, AfterStageTwo, AfterStageThree, ValidTables, DistinctTargets,
        StageOne, Items;
    var items := AllItems(StageTwo(d), t);
    WhereItemsAre(d, t);
    StageOneLands(d, m, t, a);
    StagesKeepOthers(d, chain, StageOne(m, d, t), saved, t, a);
    forall j | 0 <= j < |t.rel| && IsRelative(t.rel[j]) ensures Address(d, t.rel[j]) != a {
      assert items[RelAt(t, j)].e == t.rel[j];
    }
    forall j | 0 <= j < |t.rela| && IsRelative(t.rela[j]) ensures Address(d, t.rela[j]) != a {
      assert items[RelaAt(t, j)].e == t.rela[j];
    }
  }
}
