/** The relocation engine `do_relocs`: what one table of relocations does to memory, with addends taken
    from the entry, from memory or from the saved copies, and with unresolved PLT and GOT entries put
    off when the DSO has a lazy table. */
module Relocs {
  import opened Basics
  import opened Words
  import opened Lookup

  /** Memory as words; an address never written reads as zero. */
  type Memory = map<word, word>

  function Read(m: Memory, a: word): word {
    if a in m then m[a] else 0
  }

  /** What the engine needs of a DSO. */
  datatype Dso = Dso(base: word, table: Table, tlsId: word, tlsOffset: word)

  datatype RelType = None_ | Symbolic | Got | Plt | Relative | Offset | SymOrRel
                   | DtpMod | DtpOff | TpOff | TpOffNeg | Unsupported

  /** `rel[0]`, the two halves of `rel[1]`, and `rel[2]`, which means nothing in a REL table. */
  datatype Entry = Entry(offset: word, typ: RelType, sym: nat, addend: word)

  /** The three ways a table is read: RELA, REL, and the linker's own REL table, whose addends are saved. */
  datatype Form = Rela | Rel | RelSaved

  datatype Item = Item(e: Entry, form: Form)

  /** The circumstances of a call: the DSO, the symbol chain from `head`, whether the DSO is the linker
      itself, whether `head` is the linker too (stage 2), whether there is a lazy table, and whether
      an error abandons the load (`runtime`). */
  datatype Ctx = Ctx(dso: Dso, chain: seq<Dso>, linker: bool, stage2: bool, lazy: bool, runtime: bool)

  const DTP_OFFSET: word := 0

  function Tables(chain: seq<Dso>): (ts: seq<Table>)
    ensures |ts| == |chain|
    ensures forall k :: 0 <= k < |chain| ==> ts[k] == chain[k].table
  {
    seq(|chain|, k requires 0 <= k < |chain| => chain[k].table)
  }

  ghost predicate ValidCtx(c: Ctx) {
    ValidTable(c.dso.table) && ValidChain(Tables(c.chain))
  }

  ghost predicate ValidItems(c: Ctx, items: seq<Item>) {
    forall k :: 0 <= k < |items| ==> items[k].e.sym < |c.dso.table.syms|
  }

  /** The macro IS_RELATIVE. */
  predicate IsRelative(e: Entry) {
    e.typ == Relative || (e.typ == SymOrRel && e.sym == 0)
  }

  predicate PltOrGot(e: Entry) {
    e.typ == Plt || e.typ == Got
  }

  predicate Skipped(linker: bool, e: Entry) {
    (linker && IsRelative(e)) || e.typ == None_
  }

  function Address(d: Dso, e: Entry): word {
    Wrap(d.base + e.offset)
  }

  // ---------------------------------------------------------------- one relocation

  /** What a reference was bound to; a weak undefined reference may be bound to nothing at all. */
  datatype Binding = Missing | Bound(dso: Option<Dso>, sym: Option<Sym>)

  ghost function Bind(c: Ctx, e: Entry): (b: Binding)
    requires ValidCtx(c) && e.sym < |c.dso.table.syms|
  {
    if e.sym == 0 then Bound(Some(c.dso), None)
    else
      var y := c.dso.table.syms[e.sym];
      if y.typ == STT_SECTION then Bound(Some(c.dso), Some(y))
      else
        var d := Resolve(Tables(c.chain), NameOf(c.dso.table, e.sym), e.typ == Plt);
        if d.Some? then
          var k := d.value.dso;
          Bound(Some(c.chain[k]), Some(c.chain[k].table.syms[d.value.sym]))
        else if y.shndx != 0 || y.bind != STB_WEAK then Missing
        else Bound(None, None)
  }

  datatype Outcome = Write(value: word) | Fails | NullModule

  /** The switch over relocation types. */
  function Value(c: Ctx, e: Entry, b: Binding, addend: word): Outcome
    requires b.Bound?
  {
    var symVal := if b.sym.Some? && b.dso.Some? then Wrap(b.dso.value.base + b.sym.value.value) else 0;
    var tlsVal := if b.sym.Some? then b.sym.value.value else 0;
    match e.typ
    case None_ => Write(0)
    case Offset => Write(Wrap(symVal + addend - Address(c.dso, e)))
    case Symbolic => Write(Wrap(symVal + addend))
    case Got => Write(Wrap(symVal + addend))
    case Plt => Write(Wrap(symVal + addend))
    case Relative => Write(Wrap(c.dso.base + addend))
    case SymOrRel => Write(Wrap((if e.sym != 0 then symVal else c.dso.base) + addend))
    case DtpMod => if b.dso.Some? then Write(b.dso.value.tlsId) else NullModule
    case DtpOff => Write(Wrap(tlsVal + addend - DTP_OFFSET))
    case TpOff => if b.dso.Some? then Write(Wrap(tlsVal - b.dso.value.tlsOffset + addend)) else NullModule
    case TpOffNeg => if b.dso.Some? then Write(Wrap(b.dso.value.tlsOffset - tlsVal + addend)) else NullModule
    case Unsupported => Fails
  }

  // ---------------------------------------------------------------- a pass over a table

  /** Memory, the saved addends with the next slot, the deferred entries, the entries reported as
      errors, and whether the pass was abandoned. */
  datatype Pass = Pass(mem: Memory, saved: seq<word>, slot: nat, deferred: seq<Entry>,
                       errors: seq<Entry>, aborted: bool)

  predicate UsesSlot(linker: bool, i: Item) {
    !Skipped(linker, i.e) && i.form == RelSaved && !PltOrGot(i.e)
  }

  /** The slots of `saved_addends` that a table takes. */
  function Slots(linker: bool, items: seq<Item>): nat {
    if items == [] then 0
    else Slots(linker, items[..|items| - 1]) + if UsesSlot(linker, items[|items| - 1]) then 1 else 0
  }

  function Saved(c: Ctx, p: Pass, i: Item): (s: seq<word>)
    ensures |s| == |p.saved|
  {
    if UsesSlot(c.linker, i) && c.stage2 && p.slot < |p.saved| then
      p.saved[p.slot := Read(p.mem, Address(c.dso, i.e))]
    else p.saved
  }

  function Addend(c: Ctx, p: Pass, i: Item): word {
    if i.form == Rela then i.e.addend
    else if PltOrGot(i.e) then 0
    else if i.form == RelSaved then
      if p.slot < |p.saved| then Saved(c, p, i)[p.slot] else 0
    else Read(p.mem, Address(c.dso, i.e))
  }

  ghost function Step(c: Ctx, p: Pass, i: Item): (p': Pass)
    requires ValidCtx(c) && i.e.sym < |c.dso.table.syms|
  {
    if p.aborted || Skipped(c.linker, i.e) then p
    else
      var addend := Addend(c, p, i);
      var q := p.(saved := Saved(c, p, i), slot := if UsesSlot(c.linker, i) then p.slot + 1 else p.slot);
      Finish(c, q, i, addend)
  }

  ghost function Finish(c: Ctx, q: Pass, i: Item, addend: word): (p': Pass)
    requires ValidCtx(c) && i.e.sym < |c.dso.table.syms|
  {
    match Bind(c, i.e)
    case Missing =>
      if c.lazy && PltOrGot(i.e) then q.(deferred := q.deferred + [i.e.(addend := addend)])
      else q.(errors := q.errors + [i.e], aborted := c.runtime)
    case Bound(d, s) =>
      match Value(c, i.e, Bound(d, s), addend)
      case Write(v) => q.(mem := q.mem[Address(c.dso, i.e) := v])
      case Fails => q.(errors := q.errors + [i.e], aborted := c.runtime)
      case NullModule => q.(errors := q.errors + [i.e], aborted := true)
  }

  ghost function Run(c: Ctx, p: Pass, items: seq<Item>): (p': Pass)
    requires ValidCtx(c) && ValidItems(c, items)
  {
    if items == [] then p
    else Step(c, Run(c, p, items[..|items| - 1]), items[|items| - 1])
  }

  function Items(es: seq<Entry>, form: Form): (r: seq<Item>)
    ensures |r| == |es|
    ensures forall k :: 0 <= k < |es| ==> r[k] == Item(es[k], form)
  {
    seq(|es|, k requires 0 <= k < |es| => Item(es[k], form))
  }

  lemma {:induction false} RunConcat(c: Ctx, p: Pass, a: seq<Item>, b: seq<Item>)
    requires ValidCtx(c) && ValidItems(c, a) && ValidItems(c, b)
    ensures ValidItems(c, a + b)
    ensures Run(c, p, a + b) == Run(c, Run(c, p, a), b)
  {
    if b == [] {
      assert a + b == a;
    } else {
      var t := b[..|b| - 1];
      assert (a + b)[..|a + b| - 1] == a + t;
      RunConcat(c, p, a, t);
    }
  }

  // ---------------------------------------------------------------- where each word lands

  ghost predicate DistinctTargets(d: Dso, items: seq<Item>) {
    forall j, k :: 0 <= j < k < |items| ==> Address(d, items[j].e) != Address(d, items[k].e)
  }

  /** The addend entry `k` gets when nothing before it wrote its target. */
  ghost function AddendOf(c: Ctx, p: Pass, items: seq<Item>, k: nat): word
    requires k < |items|
  {
    var i := items[k];
    if i.form == Rela then i.e.addend
    else if PltOrGot(i.e) then 0
    else if i.form == RelSaved && !c.stage2 then
      var s := p.slot + Slots(c.linker, items[..k]);
      if s < |p.saved| then p.saved[s] else 0
    else Read(p.mem, Address(c.dso, i.e))
  }

  /** The word at a target after its entry was processed. */
  ghost function Landing(c: Ctx, before: word, e: Entry, addend: word): word
    requires ValidCtx(c) && e.sym < |c.dso.table.syms|
  {
    if Skipped(c.linker, e) then before
    else
      match Bind(c, e)
      case Missing => before
      case Bound(d, s) =>
        match Value(c, e, Bound(d, s), addend)
        case Write(v) => v
        case Fails => before
        case NullModule => before
  }

  predicate SavedAt(r: Pass, slot: nat, w: word) {
    slot < |r.saved| && r.saved[slot] == w
  }

  ghost predicate IsTarget(d: Dso, items: seq<Item>, a: word) {
    exists k :: 0 <= k < |items| && Address(d, items[k].e) == a
  }

  /** Words that are no entry's target keep their value. */
  ghost predicate OthersKept(c: Ctx, p: Pass, items: seq<Item>, r: Pass) {
    forall a: word :: IsTarget(c.dso, items, a) || Read(r.mem, a) == Read(p.mem, a)
  }

  ghost predicate Landed(c: Ctx, p: Pass, items: seq<Item>, r: Pass, k: nat)
    requires ValidCtx(c) && ValidItems(c, items) && k < |items|
  {
    var at := Address(c.dso, items[k].e);
    Read(r.mem, at) == Landing(c, Read(p.mem, at), items[k].e, AddendOf(c, p, items, k))
  }

  /** In stage 2 the slot of an entry holds the original contents of its target; later nothing changes. */
  ghost predicate SlotFilled(c: Ctx, p: Pass, items: seq<Item>, r: Pass, k: nat)
    requires k < |items|
  {
    UsesSlot(c.linker, items[k]) && c.stage2 ==>
      SavedAt(r, p.slot + Slots(c.linker, items[..k]), Read(p.mem, Address(c.dso, items[k].e)))
  }

  /** The state after a pass, entry by entry. */
  ghost predicate Settled(c: Ctx, p: Pass, items: seq<Item>, r: Pass)
    requires ValidCtx(c) && ValidItems(c, items)
  {
    && OthersKept(c, p, items, r)
    && (forall k :: 0 <= k < |items| ==> Landed(c, p, items, r, k))
    && (forall k :: 0 <= k < |items| ==> SlotFilled(c, p, items, r, k))
    && r.slot == p.slot + Slots(c.linker, items)
    && |r.saved| == |p.saved| && (!c.stage2 ==> r.saved == p.saved)
  }

  lemma {:induction false} SlotsMono(linker: bool, items: seq<Item>, j: nat, k: nat)
    requires j <= k <= |items|
    ensures Slots(linker, items[..j]) <= Slots(linker, items[..k])
    ensures j < k && UsesSlot(linker, items[j]) ==> Slots(linker, items[..j]) < Slots(linker, items[..k])
  {
    if j < k {
      SlotsMono(linker, items, j, k - 1);
      assert items[..k][..k - 1] == items[..k - 1];
    }
  }

  lemma StepLands(c: Ctx, p: Pass, i: Item)
    requires ValidCtx(c) && i.e.sym < |c.dso.table.syms| && !p.aborted && !Step(c, p, i).aborted
    ensures var r := Step(c, p, i);
            && (forall a: word :: a != Address(c.dso, i.e) ==> Read(r.mem, a) == Read(p.mem, a))
            && Read(r.mem, Address(c.dso, i.e))
               == Landing(c, Read(p.mem, Address(c.dso, i.e)), i.e, Addend(c, p, i))
            && r.slot == p.slot + (if UsesSlot(c.linker, i) then 1 else 0)
            && r.saved == (if Skipped(c.linker, i.e) then p.saved else Saved(c, p, i))
  {
    hide ValidCtx, Bind, Value, Addend, Wrap;
  }

  lemma {:induction false} AddendIsOriginal(c: Ctx, p: Pass, items: seq<Item>, q: Pass)
    requires items != [] && ValidCtx(c) && ValidItems(c, items)
    requires var n := |items| - 1;
             && Read(q.mem, Address(c.dso, items[n].e)) == Read(p.mem, Address(c.dso, items[n].e))
             && q.slot == p.slot + Slots(c.linker, items[..n])
             && (UsesSlot(c.linker, items[n]) ==> q.slot < |q.saved|)
             && |q.saved| == |p.saved| && (!c.stage2 ==> q.saved == p.saved)
    ensures !Skipped(c.linker, items[|items| - 1].e) ==>
              Addend(c, q, items[|items| - 1]) == AddendOf(c, p, items, |items| - 1)
  {
    hide ValidCtx, Wrap;
  }

  lemma {:induction false} OthersStep(c: Ctx, p: Pass, items: seq<Item>, q: Pass, r: Pass)
    requires items != [] && OthersKept(c, p, items[..|items| - 1], q)
    requires forall a: word :: a != Address(c.dso, items[|items| - 1].e) ==> Read(r.mem, a) == Read(q.mem, a)
    ensures OthersKept(c, p, items, r)
  {
    hide Wrap, Address, Read;
    forall a: word ensures IsTarget(c.dso, items, a) || Read(r.mem, a) == Read(p.mem, a) {
      if IsTarget(c.dso, items[..|items| - 1], a) {
        var k :| 0 <= k < |items| - 1 && Address(c.dso, items[..|items| - 1][k].e) == a;
        assert Address(c.dso, items[k].e) == a;
      } else if a == Address(c.dso, items[|items| - 1].e) {
        assert IsTarget(c.dso, items, a);
      }
    }
  }

  lemma {:induction false} LastIsFresh(d: Dso, items: seq<Item>)
    requires items != [] && DistinctTargets(d, items)
    ensures !IsTarget(d, items[..|items| - 1], Address(d, items[|items| - 1].e))
    ensures DistinctTargets(d, items[..|items| - 1])
  {
    hide Wrap, Address;
  }

  /** One more entry leaves the earlier ones as they were. */
  lemma {:induction false} EarlierKept(c: Ctx, p: Pass, items: seq<Item>, q: Pass, k: nat)
    requires k < |items| - 1 && ValidCtx(c) && ValidItems(c, items) && DistinctTargets(c.dso, items)
    requires p.slot + Slots(c.linker, items) <= |p.saved|
    requires Landed(c, p, items[..|items| - 1], q, k) && SlotFilled(c, p, items[..|items| - 1], q, k)
    requires q.slot == p.slot + Slots(c.linker, items[..|items| - 1])
    requires !q.aborted && !Step(c, q, items[|items| - 1]).aborted && |q.saved| == |p.saved|
    ensures var r := Step(c, q, items[|items| - 1]); Landed(c, p, items, r, k) && SlotFilled(c, p, items, r, k)
  {
    hide Step, Landing, Address, ValidCtx, Read, Addend, AddendOf, Slots;
    var n := |items| - 1;
    StepLands(c, q, items[n]);
    SlotsMono(c.linker, items, k, n);
    SlotsLast(c.linker, items);
    PrefixSame(c, p, items, n, k);
  }

  lemma {:induction false} SlotsLast(linker: bool, items: seq<Item>)
    requires items != []
    ensures Slots(linker, items)
            == Slots(linker, items[..|items| - 1]) + if UsesSlot(linker, items[|items| - 1]) then 1 else 0
  {}

  lemma {:induction false} PrefixSame(c: Ctx, p: Pass, items: seq<Item>, n: nat, k: nat)
    requires k < n <= |items|
    ensures items[..n][k] == items[k] && items[..n][..k] == items[..k]
    ensures AddendOf(c, p, items[..n], k) == AddendOf(c, p, items, k)
  {
    assert items[..n][..k] == items[..k];
  }

  lemma {:induction false} LastSettles(c: Ctx, p: Pass, items: seq<Item>, q: Pass)
    requires items != [] && ValidCtx(c) && ValidItems(c, items)
    requires p.slot + Slots(c.linker, items) <= |p.saved|
    requires var at := Address(c.dso, items[|items| - 1].e); Read(q.mem, at) == Read(p.mem, at)
    requires q.slot == p.slot + Slots(c.linker, items[..|items| - 1])
    requires !q.aborted && !Step(c, q, items[|items| - 1]).aborted && |q.saved| == |p.saved|
    requires !c.stage2 ==> q.saved == p.saved
    ensures var r := Step(c, q, items[|items| - 1]);
            && Landed(c, p, items, r, |items| - 1) && SlotFilled(c, p, items, r, |items| - 1)
            && r.slot == p.slot + Slots(c.linker, items)
            && |r.saved| == |p.saved| && (!c.stage2 ==> r.saved == p.saved)
  {
    hide Step, Landing, Wrap, ValidCtx, Read, Addend, AddendOf;
    var n := |items| - 1;
    StepLands(c, q, items[n]);
    AddendIsOriginal(c, p, items, q);
    LandingSkipped(c, items[n].e);
  }

  /** With distinct targets every entry works on the original contents of its own word. */
  lemma {:induction false} RunSettles(c: Ctx, p: Pass, items: seq<Item>)
    requires ValidCtx(c) && ValidItems(c, items) && DistinctTargets(c.dso, items)
    requires p.slot + Slots(c.linker, items) <= |p.saved| && !Run(c, p, items).aborted
    ensures Settled(c, p, items, Run(c, p, items))
  {
    hide Landing, Wrap, ValidCtx, Read, Addend, AddendOf, DistinctTargets, Finish;
    if items != [] {
      var n := |items| - 1;
      var front := items[..n];
      var q := Run(c, p, front);
      assert !q.aborted;
      LastIsFresh(c.dso, items);
      RunSettles(c, p, front);
      StepLands(c, q, items[n]);
      OthersStep(c, p, items, q, Run(c, p, items));
      LastSettles(c, p, items, q);
      forall k | 0 <= k < n
        ensures Landed(c, p, items, Run(c, p, items), k) && SlotFilled(c, p, items, Run(c, p, items), k)
      {
        assert Landed(c, p, front, q, k) && SlotFilled(c, p, front, q, k);
        EarlierKept(c, p, items, q, k);
      }
    }
  }

  /** A skipped entry's landing does not depend on the addend. */
  lemma LandingSkipped(c: Ctx, e: Entry)
    requires ValidCtx(c) && e.sym < |c.dso.table.syms|
    ensures Skipped(c.linker, e) ==> forall w: word, a: word :: Landing(c, w, e, a) == w
  {}
}
