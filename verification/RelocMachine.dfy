/** `do_relocs`, `reloc_all` for one DSO, `prepare_lazy` and `redo_lazy_relocs` as they run: memory, the
    saved addends and the lazy table are updated in place, and when a lazy table is run again the
    entries that are read and the entries that are written share one array. */
module RelocMachine {
  import opened Basics
  import opened Words
  import opened Lookup
  import opened Relocs
  import opened LazyBinding

  lemma {:induction false} AbortedStays(c: Ctx, p: Pass, items: seq<Item>)
    requires ValidCtx(c) && ValidItems(c, items) && p.aborted
    ensures Run(c, p, items) == p
  {
    hide ValidCtx, Finish;
    if items != [] {
      AbortedStays(c, p, items[..|items| - 1]);
    }
  }

  lemma {:induction false} RunOne(c: Ctx, p: Pass, es: seq<Entry>, form: Form, k: nat)
    requires ValidCtx(c) && ValidItems(c, Items(es, form)) && k < |es|
    ensures ValidItems(c, Items(es[..k], form)) && ValidItems(c, Items(es[..k + 1], form))
    ensures Run(c, p, Items(es[..k + 1], form)) == Step(c, Run(c, p, Items(es[..k], form)), Item(es[k], form))
  {
    hide ValidCtx, Step;
    assert forall j :: 0 <= j < |es| ==> Items(es, form)[j] == Item(es[j], form);
    assert Items(es[..k + 1], form)[..k] == Items(es[..k], form);
  }

  lemma {:induction false} ItemsSplit(es: seq<Entry>, form: Form, k: nat)
    requires k <= |es|
    ensures Items(es, form) == Items(es[..k], form) + Items(es[k..], form)
  {}

  lemma {:induction false} ValidSplit(c: Ctx, a: seq<Item>, b: seq<Item>)
    requires ValidItems(c, a + b)
    ensures ValidItems(c, a) && ValidItems(c, b)
  {
    assert forall j :: 0 <= j < |a| ==> a[j] == (a + b)[j];
    assert forall j :: 0 <= j < |b| ==> b[j] == (a + b)[|a| + j];
  }

  lemma {:induction false} RunRest(c: Ctx, p: Pass, es: seq<Entry>, form: Form, k: nat)
    requires ValidCtx(c) && ValidItems(c, Items(es, form)) && k <= |es|
    requires ValidItems(c, Items(es[..k], form)) && Run(c, p, Items(es[..k], form)).aborted
    ensures Run(c, p, Items(es, form)) == Run(c, p, Items(es[..k], form))
  {
    hide ValidCtx, ValidItems, Step, Run, Items;
    var a, b := Items(es[..k], form), Items(es[k..], form);
    ItemsSplit(es, form, k);
    ValidSplit(c, a, b);
    RunConcat(c, p, a, b);
    AbortedStays(c, Run(c, p, a), b);
  }

  /** Looking a reference up. */
  method ComputeBind(c: Ctx, e: Entry) returns (b: Binding)
    requires ValidCtx(c) && e.sym < |c.dso.table.syms|
    ensures b == Bind(c, e)
  {
    if e.sym == 0 {
      return Bound(Some(c.dso), None);
    }
    var y := c.dso.table.syms[e.sym];
    if y.typ == STT_SECTION {
      return Bound(Some(c.dso), Some(y));
    }
    var def := FindSym(Tables(c.chain), NameOf(c.dso.table, e.sym), e.typ == Plt);
    match def {
      case Some(d) => b := Bound(Some(c.chain[d.dso]), Some(c.chain[d.dso].table.syms[d.sym]));
      case None =>
        b := if y.shndx != 0 || y.bind != STB_WEAK then Missing else Bound(None, None);
    }
  }

  class Machine {
    var mem: Memory
    const saved: array<word>

    constructor (mem: Memory, slots: nat)
      ensures this.mem == mem && fresh(saved) && saved.Length == slots
    {
      this.mem := mem;
      saved := new word[slots];
    }

    /** One entry: fetch the addend, look the symbol up, write the word or put the entry off. */
    method DoReloc(c: Ctx, e: Entry, form: Form, lazy: array<Entry>, cnt: nat, slot: nat, errors: seq<Entry>)
        returns (cnt': nat, slot': nat, errors': seq<Entry>, aborted: bool)
      requires ValidCtx(c) && e.sym < |c.dso.table.syms|
      requires UsesSlot(c.linker, Item(e, form)) ==> slot < saved.Length
      requires if c.lazy then cnt < lazy.Length else cnt <= lazy.Length
      modifies this, saved, lazy
      ensures cnt <= cnt' <= lazy.Length && cnt' <= cnt + 1
      ensures forall j :: cnt < j < lazy.Length ==> lazy[j] == old(lazy[j])
      ensures Pass(mem, saved[..], slot', lazy[..cnt'], errors', aborted)
              == Step(c, old(Pass(mem, saved[..], slot, lazy[..cnt], errors, false)), Item(e, form))
    {
      hide Bind, Value, Wrap, ValidCtx, Finish;
      cnt', slot', errors', aborted := cnt, slot, errors, false;
      if (c.linker && IsRelative(e)) || e.typ == None_ {
        return;
      }
      var addend;
      addend, slot' := FetchAddend(c, e, form, slot);
      ghost var q := Pass(mem, saved[..], slot', lazy[..cnt], errors, false);
      cnt', errors', aborted := FinishReloc(c, e, addend, lazy, cnt, slot', errors);
      assert Pass(mem, saved[..], slot', lazy[..cnt'], errors', aborted) == Finish(c, q, Item(e, form), addend);
    }

    /** The addend: from the entry, from the word, or saved from the word on the way. */
    method FetchAddend(c: Ctx, e: Entry, form: Form, slot: nat) returns (addend: word, slot': nat)
      requires !Skipped(c.linker, e) && (UsesSlot(c.linker, Item(e, form)) ==> slot < saved.Length)
      modifies saved
      ensures var p := Pass(mem, old(saved[..]), slot, [], [], false);
              && saved[..] == Saved(c, p, Item(e, form)) && addend == Addend(c, p, Item(e, form))
              && slot' == if UsesSlot(c.linker, Item(e, form)) then slot + 1 else slot
    {
      hide Wrap;
      slot' := slot;
      var at := Address(c.dso, e);
      if form == Rela {
        addend := e.addend;
      } else if PltOrGot(e) {
        addend := 0;
      } else if form == RelSaved {
        if c.stage2 {
          saved[slot] := Read(mem, at);
        }
        addend := saved[slot];
        slot' := slot + 1;
      } else {
        addend := Read(mem, at);
      }
    }

    /** The lookup, and the word written or the entry put off. */
    method FinishReloc(c: Ctx, e: Entry, addend: word, lazy: array<Entry>, cnt: nat, ghost slot: nat,
                       errors: seq<Entry>)
        returns (cnt': nat, errors': seq<Entry>, aborted: bool)
      requires ValidCtx(c) && e.sym < |c.dso.table.syms|
      requires if c.lazy then cnt < lazy.Length else cnt <= lazy.Length
      modifies this`mem, lazy
      ensures cnt <= cnt' <= lazy.Length && cnt' <= cnt + 1
      ensures forall j :: cnt < j < lazy.Length ==> lazy[j] == old(lazy[j])
      ensures forall s: seq<word>, form ::
                Pass(mem, s, slot, lazy[..cnt'], errors', aborted)
                == Finish(c, old(Pass(mem, s, slot, lazy[..cnt], errors, false)), Item(e, form), addend)
    {
      hide Wrap, ValidCtx;
      cnt', errors', aborted := cnt, errors, false;
      var at := Address(c.dso, e);
      var b := ComputeBind(c, e);
      hide Bind, Address;
      if b == Missing {
        if c.lazy && PltOrGot(e) {
          lazy[cnt] := e.(addend := addend);
          cnt' := cnt + 1;
        } else {
          errors', aborted := errors + [e], c.runtime;
        }
        return;
      }
      match Value(c, e, b, addend) {
        case Write(v) => mem := mem[at := v];
        case Fails => errors', aborted := errors + [e], c.runtime;
        case NullModule => errors', aborted := errors + [e], true;
      }
    }

    /** `do_relocs(dso, rel, n, stride)`.  The table may be the lazy table itself, run again. */
    method DoRelocs(c: Ctx, rel: array<Entry>, n: nat, form: Form, lazy: array<Entry>, lazyCnt: nat, errors: seq<Entry>)
        returns (cnt: nat, errors': seq<Entry>, aborted: bool)
      requires ValidCtx(c) && n <= rel.Length && lazyCnt <= lazy.Length
      requires ValidItems(c, Items(rel[..n], form)) && Slots(c.linker, Items(rel[..n], form)) <= saved.Length
      requires c.lazy ==> rel == lazy || lazyCnt + n <= lazy.Length
      requires rel == lazy ==> lazyCnt == 0
      modifies this, saved, lazy
      ensures lazyCnt <= cnt <= lazy.Length && cnt <= lazyCnt + n
      ensures var r := Run(c, old(Pass(mem, saved[..], 0, lazy[..lazyCnt], errors, false)), old(Items(rel[..n], form)));
              && mem == r.mem && saved[..] == r.saved && lazy[..cnt] == r.deferred
              && errors' == r.errors && aborted == r.aborted
    {
      hide ValidCtx, ValidItems, Step, Run, Items, Slots, UsesSlot;
      ghost var es := rel[..n];
      ghost var p := Pass(mem, saved[..], 0, lazy[..lazyCnt], errors, false);
      var slot := 0;
      cnt, errors', aborted := lazyCnt, errors, false;
      RunNothing(c, p, es, form);
      for k := 0 to n
        invariant lazyCnt <= cnt <= lazy.Length && cnt <= lazyCnt + k
        invariant forall j :: k <= j < n ==> rel[j] == es[j]
        invariant ValidItems(c, Items(es[..k], form))
        invariant slot == Slots(c.linker, Items(es[..k], form))
        invariant Pass(mem, saved[..], slot, lazy[..cnt], errors', false) == Run(c, p, Items(es[..k], form))
      {
        LoopStep(c, p, es, form, k);
        var e := rel[k];
        cnt, slot, errors', aborted := DoReloc(c, e, form, lazy, cnt, slot, errors');
        if aborted {
          RunRest(c, p, es, form, k + 1);
          return;
        }
      }
      assert es[..n] == es;
    }

    /** The first half of `do_mips_relocs`: the base is added to the local GOT, except the linker's own. */
    method RelocLocalGot(c: Ctx, localGot: seq<word>)
      modifies this`mem
      ensures mem == if c.linker then old(mem) else AddBase(old(mem), c.dso.base, localGot)
    {
      if !c.linker {
        ghost var was := mem;
        assert localGot[..0] == [];
        for i := 0 to |localGot|
          invariant mem == AddBase(was, c.dso.base, localGot[..i])
        {
          assert localGot[..i + 1][..i] == localGot[..i];
          mem := mem[localGot[i] := Wrap(Read(mem, localGot[i]) + c.dso.base)];
        }
        assert localGot[..|localGot|] == localGot;
      }
    }

    /** `reloc_all` for one DSO: the MIPS local and global GOT, JMPREL, REL and RELA. */
    method RelocAll(c: Ctx, t: RelTables, got: array<Entry>, jmprel: array<Entry>, rel: array<Entry>,
                    rela: array<Entry>, lazy: array<Entry>, lazyCnt: nat)
      returns (cnt: nat, errors: seq<Entry>, aborted: bool)
      requires ValidCtx(c) && ValidTables(c, t)
      requires got[..] == t.got && jmprel[..] == t.jmprel && rel[..] == t.rel && rela[..] == t.rela
      requires lazy != got && lazy != jmprel && lazy != rel && lazy != rela
      requires Slots(c.linker, Items(t.rel, RelForm(c))) <= saved.Length
      requires lazyCnt <= lazy.Length && (c.lazy ==> lazyCnt + Total(t) <= lazy.Length)
      modifies this, saved, lazy
      ensures lazyCnt <= cnt <= lazy.Length && cnt <= lazyCnt + Total(t)
      ensures var r := RelocAllRun(c, old(Pass(mem, saved[..], 0, lazy[..lazyCnt], [], false)), t);
              && mem == r.mem && saved[..] == r.saved && lazy[..cnt] == r.deferred
              && errors == r.errors && aborted == r.aborted
    {
      hide ValidCtx, ValidItems, Run, Items, Slots, AddBase, RelForm;
      ghost var p := Pass(mem, saved[..], 0, lazy[..lazyCnt], [], false);
      RelocAllStops(c, p, t);
      TableSlots(c, t);
      RelocLocalGot(c, t.localGot);
      cnt, errors, aborted := RelocTable(c, got, t.got, Rel, lazy, lazyCnt, [], LocalPart(c, p, t));
      ghost var q1 := Run(c, LocalPart(c, p, t), Items(t.got, Rel));
      if aborted {
        return;
      }
      cnt, errors, aborted := RelocTable(c, jmprel, t.jmprel, t.jmpForm, lazy, cnt, errors, q1);
      ghost var q2 := Run(c, q1.(slot := 0), Items(t.jmprel, t.jmpForm));
      if aborted {
        return;
      }
      cnt, errors, aborted := RelocTable(c, rel, t.rel, RelForm(c), lazy, cnt, errors, q2);
      ghost var q3 := Run(c, q2.(slot := 0), Items(t.rel, RelForm(c)));
      if aborted {
        return;
      }
      cnt, errors, aborted := RelocTable(c, rela, t.rela, Rela, lazy, cnt, errors, q3);
    }

    /** One of the tables, whole. */
    method RelocTable(c: Ctx, rel: array<Entry>, ghost es: seq<Entry>, form: Form, lazy: array<Entry>, lazyCnt: nat,
                      errors: seq<Entry>, ghost p: Pass)
      returns (cnt: nat, errors': seq<Entry>, aborted: bool)
      requires ValidCtx(c) && rel[..] == es && rel != lazy && lazyCnt <= lazy.Length
      requires ValidItems(c, Items(es, form)) && Slots(c.linker, Items(es, form)) <= saved.Length
      requires c.lazy ==> lazyCnt + |es| <= lazy.Length
      requires Pass(mem, saved[..], 0, lazy[..lazyCnt], errors, false) == p.(slot := 0)
      modifies this, saved, lazy
      ensures lazyCnt <= cnt <= lazy.Length && cnt <= lazyCnt + |es|
      ensures Pass(mem, saved[..], 0, lazy[..cnt], errors', aborted)
              == Run(c, p.(slot := 0), Items(es, form)).(slot := 0)
    {
      hide ValidCtx, ValidItems, Run, Items, Slots;
      assert rel[..rel.Length] == es;
      cnt, errors', aborted := DoRelocs(c, rel, rel.Length, form, lazy, lazyCnt, errors);
    }

    /** What `redo_lazy_relocs` does to one DSO's table. */
    method RedoLazy(c: Ctx, lazy: array<Entry>, lazyCnt: nat) returns (cnt: nat)
      requires ValidCtx(c) && c.lazy && lazyCnt <= lazy.Length && Deferrable(c, lazy[..lazyCnt])
      modifies this, saved, lazy
      // the survivors are exactly the unresolved entries, in order and with their addends
      ensures cnt <= lazyCnt && lazy[..cnt] == Survivors(c, old(lazy[..lazyCnt]))
      // every other entry's word is symbol value plus addend; no other word changes
      ensures DistinctTargets(c.dso, Items(old(lazy[..lazyCnt]), Rela))
          ==> Redone(c, old(mem), old(lazy[..lazyCnt]), mem)
      ensures saved[..] == old(saved[..])
    {
      hide ValidCtx, Run, Items, Slots, DistinctTargets, Redone, Survivors, Bind;
      ghost var es := lazy[..lazyCnt];
      ghost var p := Pass(mem, saved[..], 0, [], [], false);
      assert lazy[..0] == [];
      RedoCompacts(c, p, es);
      NoSlots(c.linker, Items(es, Rela));
      RedoIsRedone(c, p, es);
      var errors, aborted;
      cnt, errors, aborted := DoRelocs(c, lazy, lazyCnt, Rela, lazy, 0, []);
    }
  }

  /** The relocation tables of one DSO.  `localGot` are the addresses of the local part of a MIPS GOT,
      `got` the entries that `do_mips_relocs` makes up for its global part; `jmpForm` is what DT_PLTREL
      says. */
  datatype RelTables = RelTables(localGot: seq<word>, got: seq<Entry>, jmprel: seq<Entry>, jmpForm: Form,
                                 rel: seq<Entry>, rela: seq<Entry>)

  /** `+= base` on every address of a list. */
  function AddBase(m: Memory, base: word, targets: seq<word>): Memory {
    if targets == [] then m
    else
      var r := AddBase(m, base, targets[..|targets| - 1]);
      var a := targets[|targets| - 1];
      r[a := Wrap(Read(r, a) + base)]
  }

  /** What `do_mips_relocs` does to the local GOT; the linker's own was done in stage 1. */
  function LocalPart(c: Ctx, p: Pass, t: RelTables): Pass {
    if c.linker then p else p.(mem := AddBase(p.mem, c.dso.base, t.localGot))
  }

  function Total(t: RelTables): nat {
    |t.got| + |t.jmprel| + |t.rel| + |t.rela|
  }

  /** Only the linker's own REL table has its addends saved. */
  function RelForm(c: Ctx): Form {
    if c.linker then RelSaved else Rel
  }

  ghost predicate ValidTables(c: Ctx, t: RelTables) {
    && t.jmpForm != RelSaved
    && ValidItems(c, Items(t.got, Rel)) && ValidItems(c, Items(t.jmprel, t.jmpForm))
    && ValidItems(c, Items(t.rel, RelForm(c))) && ValidItems(c, Items(t.rela, Rela))
  }

  /** The local GOT and the four calls, each with its own count of slots. */
  ghost function RelocAllRun(c: Ctx, p: Pass, t: RelTables): Pass
    requires ValidCtx(c) && ValidTables(c, t)
  {
    var q1 := Run(c, LocalPart(c, p, t), Items(t.got, Rel));
    var q2 := Run(c, q1.(slot := 0), Items(t.jmprel, t.jmpForm));
    var q3 := Run(c, q2.(slot := 0), Items(t.rel, RelForm(c)));
    Run(c, q3.(slot := 0), Items(t.rela, Rela))
  }

  lemma {:induction false} TableSlots(c: Ctx, t: RelTables)
    requires t.jmpForm != RelSaved
    ensures Slots(c.linker, Items(t.got, Rel)) == Slots(c.linker, Items(t.jmprel, t.jmpForm)) == 0
    ensures Slots(c.linker, Items(t.rela, Rela)) == 0
  {
    NoSlots(c.linker, Items(t.got, Rel));
    NoSlots(c.linker, Items(t.jmprel, t.jmpForm));
    NoSlots(c.linker, Items(t.rela, Rela));
  }

  lemma {:induction false} RelocAllStops(c: Ctx, p: Pass, t: RelTables)
    requires ValidCtx(c) && ValidTables(c, t) && p.slot == 0
    ensures var q1 := Run(c, LocalPart(c, p, t), Items(t.got, Rel));
            var q2 := Run(c, q1.(slot := 0), Items(t.jmprel, t.jmpForm));
            var q3 := Run(c, q2.(slot := 0), Items(t.rel, RelForm(c)));
            && (q1.aborted ==> RelocAllRun(c, p, t) == q1.(slot := 0))
            && (q2.aborted ==> RelocAllRun(c, p, t) == q2.(slot := 0))
            && (q3.aborted ==> RelocAllRun(c, p, t) == q3.(slot := 0))
  {
    hide ValidCtx, ValidItems, Run, Items, AddBase;
    var q1 := Run(c, LocalPart(c, p, t), Items(t.got, Rel));
    var q2 := Run(c, q1.(slot := 0), Items(t.jmprel, t.jmpForm));
    var q3 := Run(c, q2.(slot := 0), Items(t.rel, RelForm(c)));
    if q1.aborted {
      AbortedStays(c, q1.(slot := 0), Items(t.jmprel, t.jmpForm));
    }
    if q2.aborted {
      AbortedStays(c, q2.(slot := 0), Items(t.rel, RelForm(c)));
    }
    if q3.aborted {
      AbortedStays(c, q3.(slot := 0), Items(t.rela, Rela));
    }
  }

  /** The memory after the waiting entries `es` were run again. */
  ghost predicate Redone(c: Ctx, before: Memory, es: seq<Entry>, after: Memory)
    requires ValidCtx(c) && Deferrable(c, es)
  {
    && (forall j :: 0 <= j < |es| ==> RedoneEntry(c, before, es[j], after))
    && (forall a: word :: IsTarget(c.dso, Items(es, Rela), a) || Read(after, a) == Read(before, a))
  }

  ghost predicate RedoneEntry(c: Ctx, before: Memory, e: Entry, after: Memory)
    requires ValidCtx(c) && e.sym < |c.dso.table.syms|
  {
    var at := Address(c.dso, e);
    match Bind(c, e)
    case Missing => Read(after, at) == Read(before, at)
    case Bound(d, y) =>
      Read(after, at) == Wrap((if y.Some? && d.Some? then Wrap(d.value.base + y.value.value) else 0) + e.addend)
  }

  lemma {:induction false} RedoIsRedone(c: Ctx, p: Pass, es: seq<Entry>)
    requires ValidCtx(c) && Deferrable(c, es) && c.lazy && !p.aborted && p.slot <= |p.saved|
    ensures ValidItems(c, Items(es, Rela))
    ensures Run(c, p, Items(es, Rela)).saved == p.saved
    ensures DistinctTargets(c.dso, Items(es, Rela)) ==> Redone(c, p.mem, es, Run(c, p, Items(es, Rela)).mem)
  {
    hide ValidCtx, Run, Items, DistinctTargets, Bind;
    RedoCompacts(c, p, es);
    SavedKept(c, p, Items(es, Rela));
    if DistinctTargets(c.dso, Items(es, Rela)) {
      NoSlots(c.linker, Items(es, Rela));
      RunSettles(c, p, Items(es, Rela));
      forall j | 0 <= j < |es| ensures RedoneEntry(c, p.mem, es[j], Run(c, p, Items(es, Rela)).mem) {
        RedoWrites(c, p, es, j);
      }
    }
  }

  lemma {:induction false} SavedKept(c: Ctx, p: Pass, items: seq<Item>)
    requires ValidCtx(c) && ValidItems(c, items) && forall k :: 0 <= k < |items| ==> items[k].form != RelSaved
    ensures Run(c, p, items).saved == p.saved
  {
    if items != [] {
      SavedKept(c, p, items[..|items| - 1]);
      StepSaved(c, Run(c, p, items[..|items| - 1]), items[|items| - 1]);
    }
  }

  lemma {:induction false} StepSaved(c: Ctx, p: Pass, i: Item)
    requires ValidCtx(c) && i.e.sym < |c.dso.table.syms| && i.form != RelSaved
    ensures Step(c, p, i).saved == p.saved
  {
    hide ValidCtx, Bind, Value, Wrap;
  }

  // ---------------------------------------------------------------- room for deferred entries

  /** What the dynamic section says about the tables: sizes in bytes, and the MIPS global GOT entries. */
  datatype Sizes = Sizes(rel: nat, rela: nat, pltrel: nat, mipsGlobal: nat)

  /** The entries `prepare_lazy` allocates room for. */
  function LazyCapacity(z: Sizes): nat {
    z.rel / 2 + z.rela / 3 + z.pltrel / 2 + 1 + z.mipsGlobal
  }

  /** The byte sizes that belong to a DSO's tables. */
  function SizesOf(t: RelTables): Sizes {
    Sizes(|t.rel| * 2 * 8, |t.rela| * 3 * 8, |t.jmprel| * (if t.jmpForm == Rela then 3 else 2) * 8, |t.got|)
  }

  /** `prepare_lazy` for one DSO.  `bindNow` is what DT_BIND_NOW and the two sets of flags say, `memory`
      whether `calloc` finds room. */
  method PrepareLazy(z: Sizes, bindNow: bool, memory: bool) returns (lazy: Option<array<Entry>>, ok: bool)
    ensures ok <==> bindNow || memory
    ensures lazy.Some? <==> !bindNow && memory
    ensures lazy.Some? ==> fresh(lazy.value) && lazy.value.Length == LazyCapacity(z)
  {
    if bindNow {
      return None, true;
    }
    var n := z.rel / 2 + z.rela / 3 + z.pltrel / 2 + 1;
    n := n + z.mipsGlobal;
    if !memory {
      return None, false;
    }
    var table := new Entry[n](_ => Entry(0, None_, 0, 0));
    return Some(table), true;
  }

  /** The room is always enough: a relocation pass defers no more entries than fit. */
  lemma {:induction false} DeferralsFit(c: Ctx, p: Pass, t: RelTables)
    requires ValidCtx(c) && ValidTables(c, t) && c.lazy && p.deferred == []
    ensures Total(t) <= LazyCapacity(SizesOf(t))
    ensures |RelocAllRun(c, p, t).deferred| <= LazyCapacity(SizesOf(t))
  {
    hide ValidCtx, ValidItems, Run;
    CapacityCovers(t);
    var q0 := LocalPart(c, p, t);
    var q1 := Run(c, q0, Items(t.got, Rel));
    var q2 := Run(c, q1.(slot := 0), Items(t.jmprel, t.jmpForm));
    var q3 := Run(c, q2.(slot := 0), Items(t.rel, RelForm(c)));
    DeferredGrow(c, q0, Items(t.got, Rel));
    DeferredGrow(c, q1.(slot := 0), Items(t.jmprel, t.jmpForm));
    DeferredGrow(c, q2.(slot := 0), Items(t.rel, RelForm(c)));
    DeferredGrow(c, q3.(slot := 0), Items(t.rela, Rela));
  }

  lemma CapacityCovers(t: RelTables)
    ensures Total(t) <= LazyCapacity(SizesOf(t))
  {
    var z := SizesOf(t);
    assert z.rel / 2 == 8 * |t.rel| && z.rela / 3 == 8 * |t.rela|;
    assert z.pltrel / 2 >= 8 * |t.jmprel|;
  }

  lemma {:induction false} DeferredGrow(c: Ctx, p: Pass, items: seq<Item>)
    requires ValidCtx(c) && ValidItems(c, items)
    ensures |Run(c, p, items).deferred| <= |p.deferred| + |items|
  {
    if items != [] {
      DeferredGrow(c, p, items[..|items| - 1]);
      StepDefersOne(c, Run(c, p, items[..|items| - 1]), items[|items| - 1]);
    }
  }

  lemma {:induction false} StepDefersOne(c: Ctx, p: Pass, i: Item)
    requires ValidCtx(c) && i.e.sym < |c.dso.table.syms|
    ensures |Step(c, p, i).deferred| <= |p.deferred| + 1
  {
    hide ValidCtx, Bind, Value, Wrap;
  }

  lemma {:induction false} SlotsOne(linker: bool, es: seq<Entry>, form: Form, k: nat)
    requires k < |es|
    ensures Slots(linker, Items(es[..k + 1], form))
            == Slots(linker, Items(es[..k], form)) + if UsesSlot(linker, Item(es[k], form)) then 1 else 0
    ensures Slots(linker, Items(es[..k + 1], form)) <= Slots(linker, Items(es, form))
  {
    assert Items(es[..k + 1], form)[..k] == Items(es[..k], form);
    assert Items(es, form)[..k + 1] == Items(es[..k + 1], form);
    assert Items(es, form)[..|es|] == Items(es, form);
    SlotsMono(linker, Items(es, form), k + 1, |es|);
  }

  lemma {:induction false} StepSlot(c: Ctx, p: Pass, i: Item)
    requires ValidCtx(c) && i.e.sym < |c.dso.table.syms| && !p.aborted
    ensures Step(c, p, i).slot == p.slot + if UsesSlot(c.linker, i) then 1 else 0
  {
    hide ValidCtx, Bind, Value, Wrap;
  }

  lemma {:induction false} RunNothing(c: Ctx, p: Pass, es: seq<Entry>, form: Form)
    requires ValidCtx(c)
    ensures ValidItems(c, Items(es[..0], form)) && Run(c, p, Items(es[..0], form)) == p
    ensures Slots(c.linker, Items(es[..0], form)) == 0
  {
    hide ValidCtx;
  }

  /** What the loop of `do_relocs` knows before it handles entry `k`. */
  lemma {:induction false} LoopStep(c: Ctx, p: Pass, es: seq<Entry>, form: Form, k: nat)
    requires ValidCtx(c) && ValidItems(c, Items(es, form)) && k < |es|
    ensures es[k].sym < |c.dso.table.syms|
    ensures ValidItems(c, Items(es[..k], form)) && ValidItems(c, Items(es[..k + 1], form))
    ensures var q := Run(c, p, Items(es[..k], form));
            Run(c, p, Items(es[..k + 1], form)) == Step(c, q, Item(es[k], form))
            && (!q.aborted ==>
                  Step(c, q, Item(es[k], form)).slot == q.slot + if UsesSlot(c.linker, Item(es[k], form)) then 1 else 0)
    ensures Slots(c.linker, Items(es[..k + 1], form))
            == Slots(c.linker, Items(es[..k], form)) + if UsesSlot(c.linker, Item(es[k], form)) then 1 else 0
    ensures Slots(c.linker, Items(es[..k + 1], form)) <= Slots(c.linker, Items(es, form))
  {
    hide ValidCtx, Step, Slots, Run, UsesSlot;
    assert Items(es, form)[k].e == es[k];
    RunOne(c, p, es, form, k);
    SlotsOne(c.linker, es, form, k);
    if !Run(c, p, Items(es[..k], form)).aborted {
      StepSlot(c, Run(c, p, Items(es[..k], form)), Item(es[k], form));
    }
  }
}
