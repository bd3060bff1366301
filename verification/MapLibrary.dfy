/** `map_library`: reserving the span of a library's PT_LOAD segments and mapping each over it. */
module MapLibrary {
  import opened Words

  /** A PT_LOAD program header. */
  datatype Seg = Seg(vaddr: word, memsz: word, offset: word, filesz: word)

  /** What an address holds: a byte of the library's file, a zero byte, or whatever was there before. */
  datatype Cell = FileByte(offset: int) | ZeroByte | Before

  // ---------------------------------------------------------------- pages

  /** `x & -PAGE_SIZE`. */
  function PageDown(x: word, page: word): (r: word) {
    AndIsWord(x, Neg(page));
    And(x, Neg(page))
  }

  /** `x + PAGE_SIZE-1 & -PAGE_SIZE`. */
  function PageUp(x: word, page: word): (r: word) {
    Align(x, page)
  }

  lemma PageBounds(x: word, page: word)
    requires IsPow2(page)
    ensures page > 0
    ensures x - page < PageDown(x, page) <= x && Multiple(PageDown(x, page), page)
    ensures x + page <= MODULUS ==> x <= PageUp(x, page) < x + page && Multiple(PageUp(x, page), page)
  {
    hide And, IsPow2, Multiple;
    MaskIsRoundDown(x, page);
    RoundDown(x, page);
    MultipleIsMod(PageDown(x, page), page);
    if x + page <= MODULUS {
      AlignIsRoundUp(x, page);
      MultipleIsMod(PageUp(x, page), page);
    }
  }

  /** Between multiples of the page size there is at least a page. */
  lemma {:induction false} MultiplesApart(x: int, y: int, page: int)
    requires Multiple(x, page) && Multiple(y, page) && x < y + page
    ensures x <= y
  {
    hide Multiple;
    if y < x {
      MultipleSum(x, y, page);
      MultipleSmall(x - y, page);
    }
  }

  function First(s: Seg, page: word): word {
    PageDown(s.vaddr, page)
  }

  function End(s: Seg, page: word): word
    requires s.vaddr + s.memsz < MODULUS
  {
    PageUp(s.vaddr + s.memsz, page)
  }

  // ---------------------------------------------------------------- what linkers produce

  /** Segments with page-congruent offsets that fit the address space and share no page. */
  ghost predicate WellFormed(segs: seq<Seg>, page: word) {
    && IsPow2(page) && |segs| > 0
    && (forall i :: 0 <= i < |segs| ==> ValidSeg(segs[i], page))
    && (forall i, j :: 0 <= i < |segs| && 0 <= j < |segs| && i != j ==> Apart(segs[i], segs[j], page))
  }

  ghost predicate ValidSeg(s: Seg, page: word) {
    && 0 < s.memsz && s.filesz <= s.memsz && s.vaddr + s.memsz < MODULUS
    && s.vaddr + s.memsz + page <= MODULUS && s.offset + s.memsz + page <= MODULUS
    && Multiple(s.vaddr - s.offset, page)
  }

  ghost predicate Apart(s: Seg, t: Seg, page: word)
    requires s.vaddr + s.memsz < MODULUS && t.vaddr + t.memsz < MODULUS
  {
    End(s, page) <= First(t, page) || End(t, page) <= First(s, page)
  }

  ghost predicate IsLowest(segs: seq<Seg>, low: nat) {
    low < |segs| && forall i :: 0 <= i < |segs| ==> segs[low].vaddr <= segs[i].vaddr
  }

  // ---------------------------------------------------------------- the image

  /** What the pages of a segment shall hold, by virtual address `v`: its file bytes, and from the end of
      those on zero, except where the segment has no zero-initialised part or is mapped with the span. */
  function Expected(s: Seg, lowest: bool, v: int): Cell {
    if v < s.vaddr + s.filesz || s.memsz == s.filesz || lowest then FileByte(s.offset + (v - s.vaddr)) else ZeroByte
  }

  ghost predicate SegMapped(mem: int -> Cell, base: int, s: Seg, lowest: bool, page: word)
    requires s.vaddr + s.memsz < MODULUS
  {
    forall v :: First(s, page) <= v < End(s, page) ==> At(mem, base, v) == Expected(s, lowest, v)
  }

  /** The byte at a virtual address of a library loaded at `base`. */
  ghost function At(mem: int -> Cell, base: int, v: int): Cell {
    mem(base + v)
  }

  class AddressSpace {
    var mem: int -> Cell

    constructor ()
      ensures forall a :: mem(a) == Before
    {
      mem := _ => Before;
    }

    /** `mmap` of the file with MAP_FIXED (or where the kernel chose, for the first mapping). */
    method MapFile(at: int, n: int, offset: int)
      modifies this
      ensures forall a :: mem(a) == if at <= a < at + n then FileByte(offset + (a - at)) else old(mem)(a)
    {
      var m := mem;
      mem := a => if at <= a < at + n then FileByte(offset + (a - at)) else m(a);
    }

    /** `memset(at, 0, n)`, or an anonymous mapping. */
    method Zero(at: int, n: int)
      modifies this
      ensures forall a :: mem(a) == if at <= a < at + n then ZeroByte else old(mem)(a)
    {
      var m := mem;
      mem := a => if at <= a < at + n then ZeroByte else m(a);
    }

    /** One segment that is not on the lowest page. */
    method MapSegment(base: int, s: Seg, page: word)
      requires IsPow2(page) && ValidSeg(s, page) && Multiple(base, page)
      requires 0 <= base + First(s, page) && base + End(s, page) + page <= MODULUS
      modifies this
      ensures SegMapped(mem, base, s, false, page)
      ensures forall a :: !(base + First(s, page) <= a < base + End(s, page)) ==> mem(a) == old(mem)(a)
    {
      hide And, Multiple, IsPow2, PageDown, PageUp;
      PageBounds(s.vaddr, page);
      PageBounds(s.vaddr + s.memsz, page);
      PageBounds(s.offset, page);
      SamePageOffset(s, page);
      var thisMin := PageDown(s.vaddr, page);
      var thisMax := PageUp(s.vaddr + s.memsz, page);
      var offStart := PageDown(s.offset, page);
      MapFile(base + thisMin, thisMax - thisMin, offStart);
      if s.memsz > s.filesz {
        BreakBounds(base, s, page);
        var brk := base + s.vaddr + s.filesz;
        var pgbrk := PageUp(brk, page);
        MaskedGap(brk, page);
        Zero(brk, And(pgbrk - brk, page - 1));
        if pgbrk - base < thisMax {
          Zero(pgbrk, base + thisMax - pgbrk);
        }
      }
    }

    /** `map_library` from the first mapping on.  `map` is where the kernel put the span. */
    method MapSegments(segs: seq<Seg>, page: word, map_: word) returns (base: int, mapLen: int, ghost low: nat)
      requires WellFormed(segs, page) && Multiple(map_, page)
      requires forall i :: 0 <= i < |segs| ==> map_ + segs[i].vaddr + segs[i].memsz + 2 * page <= MODULUS
      modifies this
      ensures IsLowest(segs, low) && base + First(segs[low], page) == map_
      // every segment is where it belongs, inside the span, with its file bytes and its zeros
      ensures forall i :: 0 <= i < |segs| ==>
                && SegMapped(mem, base, segs[i], i == low, page)
                && map_ <= base + First(segs[i], page) && base + End(segs[i], page) <= map_ + mapLen
      // nothing outside the span changes
      ensures forall a :: !(map_ <= a < map_ + mapLen) ==> mem(a) == old(mem)(a)
    {
      hide And, Multiple, IsPow2, PageDown, PageUp, SegMapped, Apart;
      var addrMin, addrMax, offStart;
      ghost var top;
      addrMin, addrMax, offStart, low, top := Extent(segs);
      SpanBounds(segs, page, low, map_, addrMax, top);
      addrMax := PageUp(addrMax, page);
      addrMin := PageDown(addrMin, page);
      offStart := PageDown(offStart, page);
      mapLen := addrMax as int - addrMin as int + offStart as int;
      MapFile(map_, mapLen, offStart);
      base := map_ as int - addrMin as int;
      LowestMapped(mem, base, segs, page, low, mapLen);
      for i := 0 to |segs|
        invariant SegMapped(mem, base, segs[low], true, page)
        invariant forall j :: 0 <= j < i ==> SegMapped(mem, base, segs[j], j == low, page)
        invariant forall a :: !(map_ <= a < map_ + mapLen) ==> mem(a) == old(mem)(a)
      {
        SkipsLowestOnly(segs, page, low, i);
        if PageDown(segs[i].vaddr, page) != addrMin {
          ghost var before := mem;
          MapSegment(base, segs[i], page);
          OthersStay(before, mem, base, segs, page, low, i);
        }
      }
    }
  }

  lemma {:induction false} SpanBounds(segs: seq<Seg>, page: word, low: nat, map_: word, addrMax: word, top: nat)
    requires WellFormed(segs, page) && IsLowest(segs, low) && Multiple(map_, page)
    requires forall i :: 0 <= i < |segs| ==> map_ + segs[i].vaddr + segs[i].memsz + 2 * page <= MODULUS
    requires forall i :: 0 <= i < |segs| ==> segs[i].vaddr + segs[i].memsz <= addrMax
    requires top < |segs| && segs[top].vaddr + segs[top].memsz == addrMax
    ensures var base: int := map_ as int - First(segs[low], page) as int;
            && Multiple(base, page)
            && PageUp(addrMax, page) < addrMax + page
            && forall i :: 0 <= i < |segs| ==>
                 && First(segs[low], page) <= First(segs[i], page) < End(segs[i], page) <= PageUp(addrMax, page)
                 && base + End(segs[i], page) + page <= MODULUS
  {
    hide And, IsPow2, Multiple, PageDown, PageUp, Apart;
    PageBounds(segs[low].vaddr, page);
    PageBounds(addrMax, page);
    MultipleSum(map_, First(segs[low], page), page);
    forall i | 0 <= i < |segs|
      ensures First(segs[low], page) <= First(segs[i], page) < End(segs[i], page) <= PageUp(addrMax, page)
      ensures map_ - First(segs[low], page) + End(segs[i], page) + page <= MODULUS
    {
      InSpan(segs, page, low, addrMax, i);
      PageBounds(segs[i].vaddr + segs[i].memsz, page);
    }
  }

  /** Mapping segment `i` leaves the pages of the others alone. */
  lemma {:induction false} OthersStay(mem: int -> Cell, mem': int -> Cell, base: int, segs: seq<Seg>, page: word,
      low: nat, i: nat)
    requires WellFormed(segs, page) && i < |segs| && low < |segs|
    requires forall a :: !(base + First(segs[i], page) <= a < base + End(segs[i], page)) ==> mem'(a) == mem(a)
    ensures forall j :: 0 <= j < |segs| && j != i && SegMapped(mem, base, segs[j], j == low, page) ==>
              SegMapped(mem', base, segs[j], j == low, page)
  {
    hide And, IsPow2, Multiple, PageDown, PageUp, Expected;
    forall j | 0 <= j < |segs| && j != i && SegMapped(mem, base, segs[j], j == low, page)
      ensures SegMapped(mem', base, segs[j], j == low, page)
    {
      assert Apart(segs[i], segs[j], page);
    }
  }

  /** The first pass over the headers: the lowest address with its offset, and the highest end. */
  method Extent(segs: seq<Seg>)
      returns (addrMin: word, addrMax: word, offStart: word, ghost low: nat, ghost top: nat)
    requires |segs| > 0
    requires forall i :: 0 <= i < |segs| ==> 0 < segs[i].memsz && segs[i].vaddr + segs[i].memsz < MODULUS
    ensures IsLowest(segs, low) && addrMin == segs[low].vaddr && offStart == segs[low].offset
    ensures forall i :: 0 <= i < |segs| ==> segs[i].vaddr + segs[i].memsz <= addrMax
    ensures top < |segs| && segs[top].vaddr + segs[top].memsz == addrMax
  {
    addrMin, addrMax, offStart := MODULUS - 1, 0, 0;
    low, top := 0, 0;
    for i := 0 to |segs|
      invariant forall j :: 0 <= j < i ==> addrMin <= segs[j].vaddr && segs[j].vaddr + segs[j].memsz <= addrMax
      invariant if i == 0 then addrMin == MODULUS - 1 && addrMax == 0
                else low < i && addrMin == segs[low].vaddr && offStart == segs[low].offset
      invariant i > 0 ==> top < i && segs[top].vaddr + segs[top].memsz == addrMax
    {
      if segs[i].vaddr < addrMin {
        addrMin, offStart, low := segs[i].vaddr, segs[i].offset, i;
      }
      if segs[i].vaddr + segs[i].memsz > addrMax {
        addrMax, top := segs[i].vaddr + segs[i].memsz, i;
      }
    }
  }

  /** The loop skips a segment exactly when it is the lowest one. */
  lemma {:induction false} SkipsLowestOnly(segs: seq<Seg>, page: word, low: nat, i: nat)
    requires WellFormed(segs, page) && IsLowest(segs, low) && i < |segs|
    ensures First(segs[i], page) == First(segs[low], page) <==> i == low
    ensures First(segs[low], page) <= First(segs[i], page)
  {
    hide And, IsPow2, Multiple, PageDown, PageUp;
    var s, l := segs[i], segs[low];
    PageBounds(s.vaddr, page);
    PageBounds(l.vaddr, page);
    PageBounds(s.vaddr + s.memsz, page);
    PageBounds(l.vaddr + l.memsz, page);
    MultiplesApart(First(l, page), First(s, page), page);
    if i != low {
      assert Apart(s, l, page);
    }
  }

  /** The pages of every segment lie in the reserved span. */
  lemma {:induction false} InSpan(segs: seq<Seg>, page: word, low: nat, addrMax: word, i: nat)
    requires WellFormed(segs, page) && IsLowest(segs, low) && i < |segs|
    requires forall j :: 0 <= j < |segs| ==> segs[j].vaddr + segs[j].memsz <= addrMax
    requires addrMax + page <= MODULUS
    ensures First(segs[low], page) <= First(segs[i], page) < End(segs[i], page) <= PageUp(addrMax, page)
  {
    hide And, IsPow2, Multiple, PageDown, PageUp;
    SkipsLowestOnly(segs, page, low, i);
    var s := segs[i];
    PageBounds(s.vaddr, page);
    PageBounds(s.vaddr + s.memsz, page);
    PageBounds(addrMax, page);
    MultiplesApart(End(s, page), PageUp(addrMax, page), page);
  }

  /** The first mapping already places the lowest segment. */
  lemma {:induction false} LowestMapped(mem: int -> Cell, base: int, segs: seq<Seg>, page: word, low: nat, len: int)
    requires WellFormed(segs, page) && low < |segs|
    requires End(segs[low], page) <= First(segs[low], page) + len
    requires forall a :: base + First(segs[low], page) <= a < base + First(segs[low], page) + len ==>
               mem(a) == FileByte(PageDown(segs[low].offset, page) + (a - (base + First(segs[low], page))))
    ensures SegMapped(mem, base, segs[low], true, page)
  {
    hide And, IsPow2, Multiple, PageDown, PageUp;
    SamePageOffset(segs[low], page);
  }

  /** A congruent offset rounds down by as much as the address. */
  lemma {:induction false} SamePageOffset(s: Seg, page: word)
    requires IsPow2(page) && ValidSeg(s, page)
    ensures s.offset - PageDown(s.offset, page) == s.vaddr - PageDown(s.vaddr, page)
  {
    hide And, IsPow2, Multiple, PageDown;
    PageBounds(s.vaddr, page);
    PageBounds(s.offset, page);
    var x, y := PageDown(s.vaddr, page), PageDown(s.offset, page);
    var dv: int := s.vaddr as int - s.offset as int;
    var dp: int := x as int - y as int;
    MultipleSum(x, y, page);
    MultipleSum(dv, dp, page);
    MultipleSmall(dv - dp, page);
  }

  /** The break's page end is a page end of the mapping. */
  lemma {:induction false} BreakBounds(base: int, s: Seg, page: word)
    requires IsPow2(page) && ValidSeg(s, page) && Multiple(base, page) && s.memsz > s.filesz
    requires 0 <= base + First(s, page) && base + End(s, page) + page <= MODULUS
    ensures 0 <= base + s.vaddr + s.filesz < MODULUS
    ensures base + s.vaddr + s.filesz <= PageUp(base + s.vaddr + s.filesz, page) <= base + End(s, page)
  {
    hide And, IsPow2, Multiple, PageDown, PageUp;
    PageBounds(s.vaddr, page);
    PageBounds(s.vaddr + s.memsz, page);
    var brk := base + s.vaddr + s.filesz;
    PageBounds(brk, page);
    MultipleSum(base, End(s, page), page);
    MultiplesApart(PageUp(brk, page), base + End(s, page), page);
  }

  /** `pgbrk-brk & PAGE_SIZE-1` takes nothing away. */
  lemma {:induction false} MaskedGap(brk: word, page: word)
    requires IsPow2(page) && brk + page <= MODULUS
    ensures page > 0 && brk <= PageUp(brk, page)
    ensures var gap: int := PageUp(brk, page) as int - brk as int; And(gap, page - 1) == gap
  {
    hide And, IsPow2, Multiple, PageUp;
    PageBounds(brk, page);
    MaskIsMod(PageUp(brk, page) - brk, page);
    DivUnique(PageUp(brk, page) - brk, page, 0, PageUp(brk, page) - brk);
  }

  // ---------------------------------------------------------------- what the image guarantees

  ghost predicate AllMapped(mem: int -> Cell, base: int, segs: seq<Seg>, low: nat, page: word)
    requires WellFormed(segs, page)
  {
    forall i :: 0 <= i < |segs| ==> SegMapped(mem, base, segs[i], i == low, page)
  }

  /** The file's bytes of a segment are at base plus virtual address, and unless it is the lowest, a
      segment with a zero-initialised part is zero from there to the end of its last page. */
  lemma {:induction false} SegmentContents(mem: int -> Cell, base: int, segs: seq<Seg>, low: nat, page: word, i: nat)
    requires WellFormed(segs, page) && AllMapped(mem, base, segs, low, page) && i < |segs|
    ensures forall v :: segs[i].vaddr <= v < segs[i].vaddr + segs[i].filesz ==>
              At(mem, base, v) == FileByte(segs[i].offset + (v - segs[i].vaddr))
    ensures i != low && segs[i].memsz > segs[i].filesz ==>
              forall v :: segs[i].vaddr + segs[i].filesz <= v < End(segs[i], page) ==> At(mem, base, v) == ZeroByte
  {
    hide And, IsPow2, Multiple, PageDown, PageUp, Apart;
    assert ValidSeg(segs[i], page);
    PageBounds(segs[i].vaddr, page);
    PageBounds(segs[i].vaddr + segs[i].memsz, page);
  }

  /** The library's file, byte by byte. */
  type Contents = int -> bv8

  ghost function Byte(file: Contents, offset: int): bv8 {
    file(offset)
  }

  ghost predicate ReadsZero(file: Contents, c: Cell) {
    c == ZeroByte || (c.FileByte? && Byte(file, c.offset) == 0)
  }

  /** Zero-initialised data, the bytes of `p_memsz` beyond `p_filesz`. */
  ghost predicate BssZero(mem: int -> Cell, base: int, file: Contents, s: Seg) {
    forall v :: s.vaddr + s.filesz <= v < s.vaddr + s.memsz ==> ReadsZero(file, At(mem, base, v))
  }

  /** What follows the segment's bytes in the file, as far as the zero-initialised data reaches, is zero. */
  ghost predicate PaddingZero(file: Contents, s: Seg) {
    forall o :: s.offset + s.filesz <= o < s.offset + s.memsz ==> Byte(file, o) == 0
  }

  /** The loop never zeroes the lowest segment, so all zero-initialised data reads as zero exactly when
      the file itself happens to be zero where the lowest segment's begins. */
  lemma {:induction false} BssZeroIff(mem: int -> Cell, base: int, file: Contents, segs: seq<Seg>, low: nat, page: word)
    requires WellFormed(segs, page) && AllMapped(mem, base, segs, low, page) && low < |segs|
    ensures (forall i :: 0 <= i < |segs| ==> BssZero(mem, base, file, segs[i])) <==> PaddingZero(file, segs[low])
  {
    hide And, IsPow2, Multiple, PageDown, PageUp, Apart;
    LowestBssIff(mem, base, file, segs, low, page);
    forall i | 0 <= i < |segs| && i != low ensures BssZero(mem, base, file, segs[i]) {
      SegmentContents(mem, base, segs, low, page, i);
      assert ValidSeg(segs[i], page);
      PageBounds(segs[i].vaddr + segs[i].memsz, page);
    }
  }

  lemma {:induction false} LowestBssIff(mem: int -> Cell, base: int, file: Contents, segs: seq<Seg>, low: nat,
                                        page: word)
    requires WellFormed(segs, page) && AllMapped(mem, base, segs, low, page) && low < |segs|
    ensures BssZero(mem, base, file, segs[low]) <==> PaddingZero(file, segs[low])
  {
    hide And, IsPow2, Multiple, PageDown, PageUp, Apart;
    var l := segs[low];
    assert ValidSeg(l, page);
    PageBounds(l.vaddr, page);
    PageBounds(l.vaddr + l.memsz, page);
    forall v | l.vaddr + l.filesz <= v < l.vaddr + l.memsz
      ensures ReadsZero(file, At(mem, base, v)) <==> Byte(file, l.offset + (v - l.vaddr)) == 0
    {
      assert At(mem, base, v) == Expected(l, true, v);
    }
    if BssZero(mem, base, file, l) {
      forall o | l.offset + l.filesz <= o < l.offset + l.memsz ensures Byte(file, o) == 0 {
        var v := o - l.offset + l.vaddr;
        assert ReadsZero(file, At(mem, base, v));
      }
    }
  }

  /** A library of one segment with 16 bytes of file and 16 more of zero-initialised data, in a file that
      goes on with something else. */
  lemma {:induction false} BssOfOnlySegmentNotZero(mem: int -> Cell, base: int)
    requires WellFormed([Seg(0, 32, 0, 16)], 4096) && AllMapped(mem, base, [Seg(0, 32, 0, 16)], 0, 4096)
    ensures !BssZero(mem, base, _ => 1, Seg(0, 32, 0, 16))
  {
    var file: Contents := _ => 1;
    LowestBssIff(mem, base, file, [Seg(0, 32, 0, 16)], 0, 4096);
    assert Byte(file, 16) == 1;
  }

  /** Such a library is well-formed. */
  lemma {:induction false} OnlySegmentWellFormed()
    ensures WellFormed([Seg(0, 32, 0, 16)], 4096)
  {
    hide And;
    assert Pow2(12) == 4096;
    assert Times(0, 4096) == 0;
  }
}
