/** Static thread-local storage below the thread pointer: the offsets that `__dls3` and
    `load_library` assign, and the per-thread area that `update_tls_size` and `__copy_tls` lay out. */
module TlsLayout {
  import opened Words

  /** What PT_TLS says of a module: where its image was mapped, its memory size, its alignment. */
  datatype TlsSegment = TlsSegment(image: word, size: word, align: word)

  /** A module on the TLS list, with the offset it was given: its block starts at `tp - offset`. */
  datatype TlsModule = TlsModule(seg: TlsSegment, offset: word)

  /** The offset of the main program's block, which is the first one. */
  function FirstOffset(s: TlsSegment): (r: word) {
    Wrap(s.size + And(Neg(Wrap(s.image + s.size)), Wrap(s.align - 1)))
  }

  /** The two updates of `tls_offset` for a loaded library. */
  function NextOffset(off: word, s: TlsSegment): (r: word) {
    var raised := Wrap(off + Wrap(s.size + s.align - 1));
    Wrap(raised - And(Wrap(raised + s.image), Wrap(s.align - 1)))
  }

  /** The offset in unbounded arithmetic. */
  function ExactOffset(low: int, s: TlsSegment): (r: int)
    requires s.align > 0
    ensures low + s.size <= r < low + s.size + s.align
  {
    var top := low + s.size + s.align - 1;
    top - (top + s.image) % s.align
  }

  lemma ExactOffsetIsCongruent(low: int, s: TlsSegment)
    requires s.align > 0
    ensures Multiple(ExactOffset(low, s) + s.image, s.align)
  {
    RoundDown(low + s.size + s.align - 1 + s.image, s.align);
    MultipleIsMod(ExactOffset(low, s) + s.image, s.align);
  }

  /** No smaller offset holds the block, clears what lies below and is congruent to the image. */
  lemma ExactOffsetIsLeast(low: int, s: TlsSegment, o: int)
    requires s.align > 0 && low + s.size <= o && Multiple(o + s.image, s.align)
    ensures ExactOffset(low, s) <= o
  {
    var e := ExactOffset(low, s);
    ExactOffsetIsCongruent(low, s);
    MultipleSum(e + s.image, o + s.image, s.align);
    if o < e {
      MultipleSmall(e + s.image - (o + s.image), s.align);
    }
  }

  /** The C mask of a wrapped sum is the remainder of the sum itself. */
  lemma MaskedSum(t: int, align: word)
    requires IsPow2(align) && align > 0
    ensures And(Wrap(t), Wrap(align - 1)) == t % align
  {
    hide And, IsPow2;
    MaskIsMod(Wrap(t), align);
    WrapMod(t, align);
    WrapSmall(align - 1);
  }

  lemma NextOffsetIsExact(off: word, s: TlsSegment)
    requires IsPow2(s.align) && s.align > 0
    ensures NextOffset(off, s) == Wrap(ExactOffset(off, s))
  {
    hide And, IsPow2;
    var top := off + s.size + s.align - 1;
    hide Wrap;
    MaskedSum(top + s.image, s.align);
    WrapSum(off, s.size + s.align - 1);
    WrapSum(s.image, top);
    var rest := (top + s.image) % s.align;
    WrapSum(-rest, top);
  }

  lemma FirstOffsetIsExact(s: TlsSegment)
    requires IsPow2(s.align) && s.align > 0
    ensures FirstOffset(s) == Wrap(ExactOffset(0, s))
  {
    hide And, IsPow2;
    var sum: int := s.image + s.size;
    WrapDiff(0, sum);
    hide Wrap;
    MaskedSum(0 - sum, s.align);
    NegMod(sum, s.align);
  }

  /** Rounding up by adding the remainder of the negation is rounding down from `d - 1` above. */
  lemma NegMod(x: int, d: int)
    requires d > 0
    ensures (-x) % d == d - 1 - (x + d - 1) % d
  {
    var q, r := (x + d - 1) / d, (x + d - 1) % d;
    assert (-q) * d == -(q * d);
    DivUnique(-x, d, -q, d - 1 - r);
  }

  /** A word-sized offset clears the blocks below it exactly when the exact offset is a word. */
  lemma NextOffsetClearsIff(off: word, s: TlsSegment)
    requires IsPow2(s.align) && s.align > 0
    ensures off + s.size <= NextOffset(off, s) <==> ExactOffset(off, s) < MODULUS
    ensures ExactOffset(off, s) < MODULUS ==> NextOffset(off, s) == ExactOffset(off, s)
  {
    NextOffsetIsExact(off, s);
    WrapBelow(off + s.size, ExactOffset(off, s), s.align);
  }

  lemma WrapBelow(low: int, e: int, align: word)
    requires 0 <= low <= e < low + align && low < 2 * MODULUS
    ensures low <= Wrap(e) <==> e < MODULUS
    ensures e < MODULUS ==> Wrap(e) == e
  {
    if e >= MODULUS {
      assert Wrap(e) == if e < 2 * MODULUS then e - MODULUS else e - 2 * MODULUS;
    }
  }

  /** A module so large that its exact offset is not a word: it is placed over the one below. */
  lemma OffsetPastTheEnd()
    ensures var s := TlsSegment(0, MODULUS - 16, 16);
            ExactOffset(32, s) == MODULUS + 16 && NextOffset(32, s) == 16
  {
    hide And;
    assert Pow2(4) == 16;
    NextOffsetIsExact(32, TlsSegment(0, MODULUS - 16, 16));
  }

  // ---------------------------------------------------------------- whole runs

  /** A load of a library with TLS, or the return of a failed `dlopen` to an earlier state. */
  datatype Event = Load(seg: TlsSegment) | Revert(keep: nat)

  /** `tls_offset`, `tls_align` and the TLS module list. */
  datatype State = State(offset: word, align: word, modules: seq<TlsModule>)

  function Place(st: State, s: TlsSegment, off: word): State {
    State(off, MaxP2(st.align, s.align), st.modules + [TlsModule(s, off)])
  }

  /** The state that gave rise to a module list; what a `dlopen` saved on entry. */
  function StateAt(minAlign: word, modules: seq<TlsModule>): (st: State)
    ensures st.modules == modules
  {
    if modules == [] then State(0, minAlign, [])
    else
      var m := modules[|modules| - 1];
      Place(StateAt(minAlign, modules[..|modules| - 1]), m.seg, m.offset)
  }

  lemma {:induction false} StateNext(minAlign: word, modules: seq<TlsModule>, m: TlsModule)
    ensures StateAt(minAlign, modules + [m]) == Place(StateAt(minAlign, modules), m.seg, m.offset)
  {
    assert (modules + [m])[..|modules|] == modules;
  }

  lemma {:induction false} LastOffset(minAlign: word, modules: seq<TlsModule>)
    ensures StateAt(minAlign, modules).offset == if modules == [] then 0 else modules[|modules| - 1].offset
  {}

  /** One event.  The first module is placed by `__dls3` when it is the program's. */
  function Apply(minAlign: word, app: bool, st: State, e: Event): State {
    match e
    case Load(s) =>
      Place(st, s, if app && st.modules == [] then FirstOffset(s) else NextOffset(st.offset, s))
    case Revert(k) =>
      if k <= |st.modules| then StateAt(minAlign, st.modules[..k]) else st
  }

  function Run(minAlign: word, app: bool, es: seq<Event>): State {
    if es == [] then State(0, minAlign, [])
    else Apply(minAlign, app, Run(minAlign, app, es[..|es| - 1]), es[|es| - 1])
  }

  /** Every load has a power-of-two alignment and an offset that exists as a word. */
  ghost predicate Representable(minAlign: word, app: bool, es: seq<Event>) {
    forall i :: 0 <= i < |es| && es[i].Load? ==>
      Loadable(Run(minAlign, app, es[..i]).offset, es[i].seg)
  }

  ghost predicate Loadable(off: word, s: TlsSegment) {
    IsPow2(s.align) && s.align > 0 && ExactOffset(off, s) < MODULUS
  }

  /** Blocks stacked downwards: no overlap with the modules below, less padding than the alignment. */
  ghost predicate Stacked(ms: seq<TlsModule>) {
    forall i :: 0 <= i < |ms| ==> Clears(Below(ms, i), ms[i])
  }

  ghost predicate Clears(low: int, m: TlsModule) {
    low + m.seg.size <= m.offset < low + m.seg.size + m.seg.align
  }

  function Below(ms: seq<TlsModule>, i: nat): int
    requires i <= |ms|
  {
    if i == 0 then 0 else ms[i - 1].offset
  }

  /** Every block is congruent to its image, and `tls_align` is no smaller than any alignment. */
  ghost predicate Congruent(align: word, ms: seq<TlsModule>) {
    forall i :: 0 <= i < |ms| ==> Aligned(align, ms[i])
  }

  ghost predicate Aligned(align: word, m: TlsModule) {
    IsPow2(m.seg.align) && m.seg.align <= align && Multiple(m.offset + m.seg.image, m.seg.align)
  }

  ghost predicate LaidOut(minAlign: word, st: State) {
    && IsPow2(st.align) && st.align >= minAlign
    && Congruent(st.align, st.modules)
    && Stacked(st.modules)
    && st.offset == Below(st.modules, |st.modules|)
  }

  lemma PlaceKeepsLayout(minAlign: word, st: State, m: TlsModule)
    requires LaidOut(minAlign, st)
    requires IsPow2(m.seg.align) && Multiple(m.offset + m.seg.image, m.seg.align) && Clears(st.offset, m)
    ensures LaidOut(minAlign, Place(st, m.seg, m.offset))
  {
    hide And, IsPow2, Multiple;
    MaxP2IsMax(st.align, m.seg.align);
    var st' := Place(st, m.seg, m.offset);
    forall i | 0 <= i < |st'.modules|
      ensures Aligned(st'.align, st'.modules[i]) && Clears(Below(st'.modules, i), st'.modules[i])
    {
      if i < |st.modules| {
        assert Aligned(st.align, st.modules[i]) && Clears(Below(st.modules, i), st.modules[i]);
      } else {
        assert st'.modules[i] == m;
      }
    }
  }

  lemma {:induction false} PrefixKeepsLayout(minAlign: word, st: State, k: nat)
    requires LaidOut(minAlign, st) && IsPow2(minAlign) && k <= |st.modules|
    ensures LaidOut(minAlign, StateAt(minAlign, st.modules[..k]))
  {
    hide And, IsPow2, Multiple, MaxP2, Place, StateAt, Clears;
    if k == 0 {
      NothingLaidOut(minAlign);
    } else {
      PrefixKeepsLayout(minAlign, st, k - 1);
      var before, m := st.modules[..k - 1], st.modules[k - 1];
      assert st.modules[..k] == before + [m];
      assert Aligned(st.align, m) && Clears(Below(st.modules, k - 1), m);
      StateNext(minAlign, before, m);
      LastOffset(minAlign, before);
      PlaceKeepsLayout(minAlign, StateAt(minAlign, before), m);
    }
  }

  lemma LoadKeepsLayout(minAlign: word, app: bool, st: State, s: TlsSegment)
    requires LaidOut(minAlign, st) && Loadable(st.offset, s)
    ensures LaidOut(minAlign, Apply(minAlign, app, st, Load(s)))
  {
    hide And, IsPow2, Multiple, NextOffset, FirstOffset, MaxP2, Wrap, StateAt;
    NextOffsetClearsIff(st.offset, s);
    if st.modules == [] {
      FirstOffsetIsExact(s);
      NextOffsetIsExact(0, s);
    }
    ExactOffsetIsCongruent(st.offset, s);
    PlaceKeepsLayout(minAlign, st, TlsModule(s, ExactOffset(st.offset, s)));
  }

  /** The same for a state that a module list gave rise to. */
  lemma LoadedKeepsLayout(minAlign: word, app: bool, ms: seq<TlsModule>, m: TlsModule)
    requires LaidOut(minAlign, StateAt(minAlign, ms)) && Loadable(Below(ms, |ms|), m.seg)
    requires m.offset == if app && ms == [] then FirstOffset(m.seg) else NextOffset(Below(ms, |ms|), m.seg)
    ensures LaidOut(minAlign, StateAt(minAlign, ms + [m]))
  {
    hide And, IsPow2, FirstOffset, NextOffset, LaidOut, Place, StateAt, Loadable;
    StateNext(minAlign, ms, m);
    LastOffset(minAlign, ms);
    LoadKeepsLayout(minAlign, app, StateAt(minAlign, ms), m.seg);
  }

  lemma NothingLaidOut(minAlign: word)
    requires IsPow2(minAlign)
    ensures LaidOut(minAlign, StateAt(minAlign, []))
  {}

  /** A module that clears what is below it has an offset that exists as a word. */
  lemma PlacedLoadable(align: word, low: word, m: TlsModule)
    requires Clears(low, m) && Aligned(align, m)
    requires m.offset == NextOffset(low, m.seg) || (low == 0 && m.offset == FirstOffset(m.seg))
    ensures Loadable(low, m.seg)
  {
    hide And, FirstOffset, NextOffset, Wrap, ExactOffset;
    NextOffsetClearsIff(low, m.seg);
    if low == 0 {
      FirstOffsetIsExact(m.seg);
      NextOffsetIsExact(0, m.seg);
    }
  }

  /** After any sequence of loads and reverted loads, the layout holds. */
  lemma {:induction false} RunsAreLaidOut(minAlign: word, app: bool, es: seq<Event>)
    requires IsPow2(minAlign) && Representable(minAlign, app, es)
    ensures LaidOut(minAlign, Run(minAlign, app, es))
  {
    hide And, IsPow2;
    if es != [] {
      var n := |es| - 1;
      var before := es[..n];
      assert Representable(minAlign, app, before) by {
        forall i | 0 <= i < n ensures before[..i] == es[..i] {}
      }
      RunsAreLaidOut(minAlign, app, before);
      match es[n] {
        case Load(s) => LoadKeepsLayout(minAlign, app, Run(minAlign, app, before), s);
        case Revert(k) =>
          if k <= |Run(minAlign, app, before).modules| {
            PrefixKeepsLayout(minAlign, Run(minAlign, app, before), k);
          }
      }
    }
  }

  lemma {:induction false} OffsetsGrow(ms: seq<TlsModule>, i: nat, j: nat)
    requires Stacked(ms) && i < j <= |ms|
    ensures ms[i].seg.size <= ms[i].offset <= Below(ms, j)
    ensures j < |ms| ==> ms[i].offset <= ms[j].offset - ms[j].seg.size
  {
    assert Clears(Below(ms, i), ms[i]);
    if j < |ms| {
      assert Clears(Below(ms, j), ms[j]);
    }
    if i > 0 {
      OffsetsGrow(ms, i - 1, i);
    }
    if i + 1 < j {
      OffsetsGrow(ms, i, j - 1);
      assert Clears(Below(ms, j - 1), ms[j - 1]);
    }
  }

  lemma BlocksWithin(ms: seq<TlsModule>)
    requires Stacked(ms)
    ensures forall i :: 0 <= i < |ms| ==> ms[i].seg.size <= ms[i].offset <= Below(ms, |ms|)
  {
    forall i | 0 <= i < |ms|
      ensures ms[i].seg.size <= ms[i].offset <= Below(ms, |ms|)
    {
      OffsetsGrow(ms, i, |ms|);
    }
  }

  lemma BlockCongruent(align: word, tp: int, m: TlsModule)
    requires IsPow2(align) && Aligned(align, m) && Multiple(tp, align)
    ensures Multiple(tp - m.offset - m.seg.image, m.seg.align)
  {
    hide IsPow2, Multiple;
    MultiplePow2(tp, align, m.seg.align);
    MultipleSum(tp, m.offset + m.seg.image, m.seg.align);
  }

  /** In memory: for every thread pointer aligned as `tls_align` demands, the blocks of two modules
      never overlap, they end at or below the thread pointer, and each is congruent to its image. */
  lemma BlocksAreDisjoint(minAlign: word, app: bool, es: seq<Event>, tp: int, i: nat, j: nat)
    requires IsPow2(minAlign) && Representable(minAlign, app, es)
    requires i < j < |Run(minAlign, app, es).modules|
    requires Multiple(tp, Run(minAlign, app, es).align)
    ensures var ms := Run(minAlign, app, es).modules;
            && tp - ms[j].offset + ms[j].seg.size <= tp - ms[i].offset
            && tp - ms[i].offset + ms[i].seg.size <= tp
            && Multiple(tp - ms[i].offset - ms[i].seg.image, ms[i].seg.align)
            && Multiple(tp - ms[j].offset - ms[j].seg.image, ms[j].seg.align)
  {
    hide And, IsPow2, Multiple, Run;
    RunsAreLaidOut(minAlign, app, es);
    var st := Run(minAlign, app, es);
    OffsetsGrow(st.modules, i, j);
    assert Aligned(st.align, st.modules[i]) && Aligned(st.align, st.modules[j]);
    BlockCongruent(st.align, tp, st.modules[i]);
    BlockCongruent(st.align, tp, st.modules[j]);
  }

  // ---------------------------------------------------------------- one thread's area

  function AreaNeed(st: State, threadSize: word): int {
    (1 + |st.modules|) * 8 + st.offset + threadSize + st.align * 2
  }

  /** `update_tls_size`. */
  function TlsSize(st: State, threadSize: word): (r: word) {
    Align(Wrap(AreaNeed(st, threadSize)), st.align)
  }

  lemma TlsSizeCovers(st: State, threadSize: word)
    requires IsPow2(st.align) && AreaNeed(st, threadSize) + st.align <= MODULUS
    ensures AreaNeed(st, threadSize) <= TlsSize(st, threadSize)
  {
    WrapSmall(AreaNeed(st, threadSize));
    AlignIsRoundUp(AreaNeed(st, threadSize), st.align);
  }

  lemma RoundDownWord(p: word, a: word)
    requires IsPow2(a) && 0 < a
    ensures 0 <= And(p, a - 1) < a && Multiple(p - And(p, a - 1), a)
  {
    MaskIsMod(p, a);
    RoundDown(p, a);
    MultipleIsMod(p - And(p, a - 1), a);
  }

  /** Where `__copy_tls` puts the thread descriptor: as high as its alignment allows. */
  function Descriptor(mem: int, tlsSize: int, threadSize: int, align: int): (td: int)
    requires 0 <= mem + tlsSize - threadSize && 0 < align
  {
    var p := mem + tlsSize - threadSize;
    p - And(p, align - 1)
  }

  lemma DescriptorFits(st: State, mem: word, threadSize: word)
    requires IsPow2(st.align) && 0 < st.align
    requires AreaNeed(st, threadSize) + st.align <= MODULUS
    requires mem + TlsSize(st, threadSize) < MODULUS
    ensures 0 <= mem + TlsSize(st, threadSize) - threadSize
    ensures var td := Descriptor(mem, TlsSize(st, threadSize), threadSize, st.align);
            && Multiple(td, st.align)
            && td + threadSize <= mem + TlsSize(st, threadSize)
            && mem + (1 + |st.modules|) * 8 + st.offset < td
  {
    hide And, IsPow2, Multiple;
    TlsSizeCovers(st, threadSize);
    hide TlsSize;
    RoundDownWord(mem + TlsSize(st, threadSize) - threadSize, st.align);
  }

  /** `__copy_tls` for an area that starts at `mem`: the thread descriptor's address and the DTV. */
  method CopyTls(st: State, ghost minAlign: word, mem: word, threadSize: word)
      returns (td: int, dtv: seq<int>)
    requires LaidOut(minAlign, st) && 0 < st.align
    requires AreaNeed(st, threadSize) + st.align <= MODULUS
    requires mem + TlsSize(st, threadSize) < MODULUS
    // the descriptor is aligned and ends inside the area
    ensures Multiple(td, st.align) && td + threadSize <= mem + TlsSize(st, threadSize)
    // the DTV knows every module, and its words lie below all blocks
    ensures |dtv| == 1 + |st.modules| && dtv[0] == |st.modules|
    ensures forall i :: 1 <= i < |dtv| ==> dtv[i] == td - st.modules[i - 1].offset
    ensures forall i :: 1 <= i < |dtv| ==> mem + |dtv| * 8 < dtv[i] <= td - st.modules[i - 1].seg.size
  {
    hide And, IsPow2, Multiple, Congruent, TlsSize;
    DescriptorFits(st, mem, threadSize);
    td := Descriptor(mem, TlsSize(st, threadSize), threadSize, st.align);
    BlocksWithin(st.modules);
    dtv := [|st.modules|];
    for i := 0 to |st.modules|
      invariant |dtv| == 1 + i && dtv[0] == |st.modules|
      invariant forall k :: 1 <= k <= i ==> dtv[k] == td - st.modules[k - 1].offset
    {
      dtv := dtv + [td - st.modules[i].offset];
    }
  }
}
