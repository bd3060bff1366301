/** The one allocation that `load_library` makes for a library loaded at run time: the `struct dso`,
    the pathname, and for every existing thread a larger DTV and a copy of the TLS block. */
module TlsStorage {
  import opened Words
  import opened TlsLayout

  const SIZE_MAX: int := MODULUS - 1

  /** The sizes the allocation depends on.  `bufOffset` is where the pathname starts in a `struct dso`
      of `header` bytes, `tlsCnt` the number of modules before this one. */
  datatype Request = Request(header: word, bufOffset: word, nameLen: word, seg: TlsSegment, tlsCnt: word, threads: word)

  /** The bounds real inputs meet: a C structure, a pathname in memory, at least the calling thread. */
  ghost predicate Plausible(q: Request) {
    && q.bufOffset <= q.header
    && q.header + q.nameLen + 8 < SSIZE_MAX / 2
    && q.threads >= 1
    && IsPow2(q.seg.align)
    && 8 * (q.tlsCnt + 3) < MODULUS
  }

  function PerThread(q: Request): int {
    q.seg.size + q.seg.align + 8 * (q.tlsCnt + 3)
  }

  /** `alloc_size`, in the wrapping arithmetic of the code. */
  function AllocSize(q: Request): (r: word)
    requires Wrap(PerThread(q)) != 0
  {
    var perTh := Wrap(PerThread(q));
    if q.threads > SSIZE_MAX / perTh then SIZE_MAX
    else Wrap(Wrap(q.header + q.nameLen + 1) + Wrap(q.threads * perTh))
  }

  function NameStart(q: Request, p: int): int {
    p + q.bufOffset
  }

  /** `p->new_dtv`: the first word boundary after the pathname's terminator. */
  function NewDtv(q: Request, p: int): int
    requires 0 <= p
  {
    And(NameStart(q, p) + q.nameLen + 8, Neg(8))
  }

  /** The words in one extended DTV: entry 0 and one for each module up to this one. */
  function DtvWords(q: Request): int {
    q.tlsCnt + 1 + 1
  }

  /** The address `__tls_get_new` computes for the DTV with index `k`. */
  function DtvSlot(q: Request, p: int, k: int): int
    requires 0 <= p
  {
    NewDtv(q, p) + 8 * Times(k, DtvWords(q))
  }

  /** `p->new_tls`. */
  function NewTls(q: Request, p: int): int
    requires 0 <= p
  {
    NewDtv(q, p) + 8 * Times(q.threads, DtvWords(q))
  }

  function TlsRaw(q: Request, p: int, k: int): int
    requires 0 <= p
  {
    NewTls(q, p) + Times(k, q.seg.size + q.seg.align)
  }

  /** The address `__tls_get_new` computes for the TLS block with index `k`. */
  function TlsSlot(q: Request, p: int, k: int): int
    requires 0 <= p
  {
    var mem := TlsRaw(q, p, k);
    mem + And(Wrap(q.seg.image - mem), Wrap(q.seg.align - 1))
  }

  lemma TimesBounds(i: int, k: int, d: int)
    requires 0 <= i < k && 0 <= d
    ensures 0 <= Times(i, d) && Times(i, d) + d <= Times(k, d)
  {
    var m: nat, n: nat := i, k - i - 1;
    assert m * d >= 0 && n * d >= 0;
    assert k * d == m * d + d + n * d;
  }

  lemma NewDtvPlace(q: Request, p: word)
    requires Plausible(q) && NameStart(q, p) + q.nameLen + 8 < MODULUS
    ensures Multiple(NewDtv(q, p), 8)
    ensures NameStart(q, p) + q.nameLen + 1 <= NewDtv(q, p) <= NameStart(q, p) + q.nameLen + 8
  {
    hide And;
    var x := NameStart(q, p) + q.nameLen + 8;
    assert Pow2(3) == 8;
    assert IsPow2(8);
    MaskIsRoundDown(x, 8);
    RoundDown(x, 8);
    MultipleIsMod(NewDtv(q, p), 8);
  }

  /** A block starts inside its padded slot, ends inside it, and is congruent to the image. */
  lemma TlsSlotPlace(q: Request, p: word, k: int)
    requires IsPow2(q.seg.align) && q.seg.align > 0
    ensures TlsRaw(q, p, k) <= TlsSlot(q, p, k)
    ensures TlsSlot(q, p, k) + q.seg.size < TlsRaw(q, p, k) + q.seg.size + q.seg.align
    ensures Multiple(TlsSlot(q, p, k) - q.seg.image, q.seg.align)
  {
    hide And, IsPow2, TlsRaw;
    var mem := TlsRaw(q, p, k);
    MaskedSum(q.seg.image - mem, q.seg.align);
    RoundDown(q.seg.image - mem, q.seg.align);
    var down := (q.seg.image - mem) - (q.seg.image - mem) % q.seg.align;
    MultipleIsMod(down, q.seg.align);
    MultipleIsMod(0, q.seg.align);
    MultipleSum(0, down, q.seg.align);
    assert TlsSlot(q, p, k) - q.seg.image == 0 - down;
  }

  lemma AllocSizeIs(q: Request)
    requires Plausible(q) && Wrap(PerThread(q)) != 0
    ensures AllocSize(q) < SIZE_MAX ==>
              && Times(q.threads, Wrap(PerThread(q))) <= SSIZE_MAX
              && AllocSize(q) == q.header + q.nameLen + 1 + Times(q.threads, Wrap(PerThread(q)))
  {
    hide IsPow2;
    var perTh := Wrap(PerThread(q));
    hide Wrap;
    if q.threads <= SSIZE_MAX / perTh {
      QuotientBound(q.threads, SSIZE_MAX, perTh);
      WrapSmall(q.header + q.nameLen + 1);
      WrapSmall(q.threads * perTh);
      WrapSmall(q.header + q.nameLen + 1 + q.threads * perTh);
    }
  }

  lemma QuotientBound(n: int, m: int, d: int)
    requires 0 <= n && 0 <= m && 0 < d && n <= m / d
    ensures 0 <= n * d <= m
  {
    assert m == (m / d) * d + m % d;
    assert (m / d - n) * d >= 0;
    assert (m / d) * d == n * d + (m / d - n) * d;
  }

  /** Everything after the pathname needs this many bytes. */
  function Tail(q: Request): int {
    8 * Times(q.threads, DtvWords(q)) + Times(q.threads, q.seg.size + q.seg.align)
  }

  lemma TailIs(q: Request)
    ensures Tail(q) == Times(q.threads, PerThread(q)) - 8 * q.threads
    ensures TlsRaw(q, 0, q.threads) - NewDtv(q, 0) == Tail(q)
  {
    var n := q.threads;
    assert n * PerThread(q) == n * (q.seg.size + q.seg.align) + 8 * (n * DtvWords(q)) + 8 * n;
  }

  ghost predicate Fits(q: Request, p: word)
    requires Wrap(PerThread(q)) != 0
  {
    NewDtv(q, p) + Tail(q) <= p + AllocSize(q)
  }

  /** A granted allocation holds every region exactly when the per-thread size did not wrap. */
  lemma FitsIff(q: Request, p: word)
    requires Plausible(q) && Wrap(PerThread(q)) != 0
    requires AllocSize(q) < SIZE_MAX && p + AllocSize(q) < MODULUS
    requires NameStart(q, p) + q.nameLen + 8 < MODULUS
    ensures Fits(q, p) <==> PerThread(q) < MODULUS
  {
    hide And, IsPow2;
    AllocSizeIs(q);
    NewDtvPlace(q, p);
    hide NewDtv, AllocSize;
    TailIs(q);
    if PerThread(q) < MODULUS {
      WrapSmall(PerThread(q));
    } else {
      // one thread alone already needs more than any allocation the code can ask for
      TimesBounds(0, q.threads, PerThread(q) - 8);
      assert Times(q.threads, PerThread(q)) - 8 * q.threads == Times(q.threads, PerThread(q) - 8) by {
        assert q.threads * (PerThread(q) - 8) == q.threads * PerThread(q) - 8 * q.threads;
      }
    }
  }

  /** An image whose per-thread size wraps to 32 bytes: the request is granted, and does not hold it. */
  lemma GrantedTooSmall()
    ensures var q := Request(512, 256, 10, TlsSegment(0, MODULUS - 8, 16), 0, 1);
            Plausible(q) && Wrap(PerThread(q)) == 32 && AllocSize(q) == 555 && !Fits(q, 4096)
  {
    hide And;
    assert Pow2(4) == 16;
    FitsIff(Request(512, 256, 10, TlsSegment(0, MODULUS - 8, 16), 0, 1), 4096);
  }

  /** One whose per-thread size wraps to 0, which the code then divides by. */
  lemma PerThreadVanishes()
    ensures var q := Request(512, 256, 10, TlsSegment(0, MODULUS - 32, 8), 0, 1);
            Plausible(q) && Wrap(PerThread(q)) == 0
  {
    assert Pow2(3) == 8;
  }

  /** All regions of a granted allocation are inside it and apart from one another: the structure and
      the pathname, then the DTVs at word boundaries, then the TLS blocks congruent to the image. */
  lemma RegionsAreDisjoint(q: Request, p: word, j: int, k: int)
    requires Plausible(q) && 0 < PerThread(q) < MODULUS && q.seg.align > 0
    requires AllocSize(q) < SIZE_MAX && p + AllocSize(q) < MODULUS
    requires NameStart(q, p) + q.nameLen + 8 < MODULUS
    requires 0 <= j <= k < q.threads
    // the pathname and its terminator end before the first DTV
    ensures NameStart(q, p) + q.nameLen + 1 <= DtvSlot(q, p, 0)
    // DTVs
    ensures Multiple(DtvSlot(q, p, k), 8)
    ensures j < k ==> DtvSlot(q, p, j) + 8 * DtvWords(q) <= DtvSlot(q, p, k)
    ensures DtvSlot(q, p, k) + 8 * DtvWords(q) <= NewTls(q, p)
    // TLS blocks
    ensures NewTls(q, p) <= TlsSlot(q, p, j)
    ensures j < k ==> TlsSlot(q, p, j) + q.seg.size <= TlsSlot(q, p, k)
    ensures TlsSlot(q, p, k) + q.seg.size <= p + AllocSize(q)
    ensures Multiple(TlsSlot(q, p, k) - q.seg.image, q.seg.align)
  {
    hide And, IsPow2, Multiple;
    WrapSmall(PerThread(q));
    FitsIff(q, p);
    NewDtvPlace(q, p);
    DtvAligned(q, p, k);
    hide NewDtv, AllocSize;
    TlsSlotPlace(q, p, j);
    TlsSlotPlace(q, p, k);
    var d, b := DtvWords(q), q.seg.size + q.seg.align;
    TimesBounds(k, q.threads, d);
    TimesBounds(k, q.threads, b);
    if j < k {
      TimesBounds(j, k, d);
      TimesBounds(j, k, b);
    }
  }

  lemma DtvAligned(q: Request, p: word, k: int)
    requires Plausible(q) && NameStart(q, p) + q.nameLen + 8 < MODULUS
    ensures Multiple(DtvSlot(q, p, k), 8)
  {
    hide And, IsPow2;
    NewDtvPlace(q, p);
    hide NewDtv;
    assert Times(Times(k, DtvWords(q)), 8) == 8 * Times(k, DtvWords(q));
    MultipleSum(NewDtv(q, p), 8 * Times(k, DtvWords(q)), 8);
  }
}
