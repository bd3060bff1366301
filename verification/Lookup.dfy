/** Symbol lookup: the System V and GNU hash tables of one shared object, the Bloom filter in front of
    the latter, what both agree with - a scan of the symbol table - and `find_sym` over a chain. */
module Lookup {
  import opened Basics
  import opened Words
  import opened Hashes

  const STT_SECTION: nat := 3
  const STT_TLS: nat := 6
  const STB_WEAK: nat := 2

  /** A symbol table entry; `typ` and `bind` are the two halves of `st_info`. */
  datatype Sym = Sym(name: nat, value: word, typ: nat, bind: nat, shndx: nat)

  /** The GNU hash section: header, Bloom filter words, buckets, hash values of the hashed symbols. */
  datatype GnuTable = GnuTable(symOffset: nat, shift: nat, bloom: seq<word>, buckets: seq<nat>, hashvals: seq<nat>)

  /** What lookup reads of a DSO.  `hashtab` is the System V section: bucket count, chain count,
      buckets, chains. */
  datatype Table = Table(strings: seq<byte>, syms: seq<Sym>, versym: Option<seq<int>>,
                         hashtab: seq<nat>, gnu: Option<GnuTable>)

  // ---------------------------------------------------------------- the symbol table

  ghost predicate ValidNames(d: Table) {
    && (forall i :: 0 <= i < |d.syms| ==> Terminated(d.strings, d.syms[i].name))
    && (d.versym.Some? ==> |d.versym.value| == |d.syms|)
  }

  function NameOf(d: Table, i: nat): CString
    requires ValidNames(d) && i < |d.syms|
  {
    StringAt(d.strings, d.syms[i].name)
  }

  /** Symbol `i` has the name `s` and its version is not hidden. */
  ghost predicate Matches(d: Table, s: CString, i: nat)
    requires ValidNames(d) && i < |d.syms|
  {
    (d.versym.Some? ==> d.versym.value[i] >= 0) && NameOf(d, i) == s
  }

  /** The first match at or after `from`: lookup without any index. */
  ghost function Scan(d: Table, s: CString, from: nat): (r: Option<nat>)
    requires ValidNames(d) && from <= |d.syms|
    ensures r.Some? ==> from <= r.value < |d.syms| && Matches(d, s, r.value)
    ensures r.Some? ==> forall i :: from <= i < r.value ==> !Matches(d, s, i)
    ensures r.None? ==> forall i :: from <= i < |d.syms| ==> !Matches(d, s, i)
    decreases |d.syms| - from
  {
    if from == |d.syms| then None
    else if Matches(d, s, from) then Some(from)
    else Scan(d, s, from + 1)
  }

  method NameEquals(d: Table, s: CString, i: nat) returns (same: bool)
    requires ValidNames(d) && i < |d.syms|
    ensures same <==> NameOf(d, i) == s
  {
    assert (s + [0])[|s|] == 0;
    var diff := StrCmp(s + [0], 0, d.strings, d.syms[i].name);
    StringItself(s);
    same := diff == 0;
  }

  lemma StringItself(s: CString)
    ensures Terminated(s + [0], 0) && StringAt(s + [0], 0) == s
  {
    assert (s + [0])[|s|] == 0;
    assert Terminator(s + [0], 0) == |s|;
  }

  // ---------------------------------------------------------------- the GNU table

  ghost function HashOf(s: CString): nat {
    GnuHash(s) as nat
  }

  ghost function BucketOf(d: Table, i: nat): nat
    requires ValidNames(d) && i < |d.syms| && d.gnu.Some? && |d.gnu.value.buckets| > 0
  {
    HashOf(NameOf(d, i)) % |d.gnu.value.buckets|
  }

  /** `h | 1`. */
  function Or1(h: nat): nat {
    h - h % 2 + 1
  }

  predicate Bit(w: nat, k: nat) {
    w / Pow2(k) % 2 == 1
  }

  function BloomIndex(g: GnuTable, h: nat): (i: nat)
    requires |g.bloom| > 0
    ensures i < |g.bloom|
  {
    And(h / 64, |g.bloom| - 1)
  }

  ghost predicate InBloom(g: GnuTable, h: nat)
    requires |g.bloom| > 0
  {
    && Bit(g.bloom[BloomIndex(g, h)], h % 64)
    && Bit(g.bloom[BloomIndex(g, h)], h / Pow2(g.shift) % 64)
  }

  ghost predicate LastOfBucket(d: Table, i: nat)
    requires ValidNames(d) && i < |d.syms| && d.gnu.Some? && |d.gnu.value.buckets| > 0
  {
    i + 1 == |d.syms| || BucketOf(d, i + 1) != BucketOf(d, i)
  }

  /** The section as a linker writes it: hashed symbols grouped by bucket, hash values with the low bit
      replaced by the end-of-chain mark, and the Bloom filter filled for every hashed symbol. */
  ghost predicate ValidGnu(d: Table) {
    && ValidNames(d) && d.gnu.Some?
    && var g := d.gnu.value;
       && |g.buckets| > 0 && |g.bloom| > 0
       && 1 <= g.symOffset <= |d.syms| && |g.hashvals| == |d.syms| - g.symOffset
       && (forall i, j :: g.symOffset <= i <= j < |d.syms| ==> BucketOf(d, i) <= BucketOf(d, j))
       && (forall b :: 0 <= b < |g.buckets| ==> BucketStart(d, b, g.buckets[b]))
       && (forall i :: g.symOffset <= i < |d.syms| ==> HashvalOk(d, i))
       && (forall i :: g.symOffset <= i < |d.syms| ==> InBloom(g, HashOf(NameOf(d, i))))
  }

  /** A bucket holds the index of its first symbol, or 0 when it has none. */
  ghost predicate BucketStart(d: Table, b: nat, start: nat)
    requires ValidNames(d) && d.gnu.Some? && |d.gnu.value.buckets| > 0
  {
    if start == 0 then
      forall i :: d.gnu.value.symOffset <= i < |d.syms| ==> BucketOf(d, i) != b
    else
      && d.gnu.value.symOffset <= start < |d.syms| && BucketOf(d, start) == b
      && forall i :: d.gnu.value.symOffset <= i < start ==> BucketOf(d, i) != b
  }

  ghost predicate HashvalOk(d: Table, i: nat)
    requires ValidNames(d) && d.gnu.Some? && |d.gnu.value.buckets| > 0
    requires d.gnu.value.symOffset <= i < |d.syms| && |d.gnu.value.hashvals| == |d.syms| - d.gnu.value.symOffset
  {
    var v := d.gnu.value.hashvals[i - d.gnu.value.symOffset];
    Or1(v) == Or1(HashOf(NameOf(d, i))) && (v % 2 == 1 <==> LastOfBucket(d, i))
  }

  /** Symbol `i` is in the bucket of `s` and no hashed symbol before it matches. */
  ghost predicate Searched(d: Table, s: CString, i: nat)
    requires ValidNames(d) && d.gnu.Some? && |d.gnu.value.buckets| > 0
  {
    && d.gnu.value.symOffset <= i < |d.syms| && BucketOf(d, i) == HomeOf(d, s)
    && forall k :: d.gnu.value.symOffset <= k < i ==> !Matches(d, s, k)
  }

  /** The bucket a name hashes to. */
  ghost function HomeOf(d: Table, s: CString): nat
    requires d.gnu.Some? && |d.gnu.value.buckets| > 0
  {
    HashOf(s) % |d.gnu.value.buckets|
  }

  lemma MatchBucket(d: Table, s: CString, i: nat)
    requires ValidNames(d) && i < |d.syms| && d.gnu.Some? && |d.gnu.value.buckets| > 0
    ensures Matches(d, s, i) ==> BucketOf(d, i) == HomeOf(d, s)
  {}

  lemma SearchStarts(d: Table, s: CString, start: nat)
    requires ValidGnu(d) && start == d.gnu.value.buckets[HomeOf(d, s)]
    ensures if start == 0 then Scan(d, s, d.gnu.value.symOffset) == None else Searched(d, s, start)
  {
    hide BucketOf, Matches, HashvalOk, InBloom;
    assert 0 <= HomeOf(d, s) < |d.gnu.value.buckets|;
    hide HomeOf;
    assert BucketStart(d, HomeOf(d, s), start);
    forall k | d.gnu.value.symOffset <= k < |d.syms| && BucketOf(d, k) != HomeOf(d, s)
      ensures !Matches(d, s, k)
    {
      MatchBucket(d, s, k);
    }
  }

  lemma SearchMoves(d: Table, s: CString, i: nat)
    requires ValidGnu(d) && Searched(d, s, i) && !Matches(d, s, i)
    ensures d.gnu.value.hashvals[i - d.gnu.value.symOffset] % 2 == 0 ==> Searched(d, s, i + 1)
    ensures d.gnu.value.hashvals[i - d.gnu.value.symOffset] % 2 == 1 ==> Scan(d, s, d.gnu.value.symOffset) == None
  {
    hide InBloom, BucketStart, HashOf, BucketOf, HomeOf, Matches;
    assert HashvalOk(d, i);
    hide HashvalOk;
    if d.gnu.value.hashvals[i - d.gnu.value.symOffset] % 2 == 1 {
      forall k | i < k < |d.syms| ensures !Matches(d, s, k) {
        assert BucketOf(d, i) <= BucketOf(d, i + 1) <= BucketOf(d, k);
        MatchBucket(d, s, k);
      }
    }
  }

  lemma SearchEnds(d: Table, s: CString, i: nat)
    requires ValidGnu(d) && Searched(d, s, i) && Matches(d, s, i)
    ensures Scan(d, s, d.gnu.value.symOffset) == Some(i)
  {}

  lemma HashTells(d: Table, s: CString, i: nat)
    requires ValidGnu(d) && Searched(d, s, i)
    ensures Matches(d, s, i) ==> Or1(HashOf(s)) == Or1(d.gnu.value.hashvals[i - d.gnu.value.symOffset])
  {
    assert HashvalOk(d, i);
  }

  /** `gnu_lookup`: on a well-formed table the chain walk is a scan of all hashed symbols. */
  method GnuLookup(h1: nat, d: Table, s: CString) returns (r: Option<nat>)
    requires ValidGnu(d) && h1 == HashOf(s)
    ensures r == Scan(d, s, d.gnu.value.symOffset)
  {
    hide Scan, BucketOf, BucketStart, HashvalOk, InBloom, HashOf, NameOf;
    var g := d.gnu.value;
    var i := g.buckets[h1 % |g.buckets|];
    SearchStarts(d, s, i);
    if i == 0 {
      return None;
    }
    var h := Or1(h1);
    while true
      invariant Searched(d, s, i)
      decreases |d.syms| - i
    {
      var h2 := g.hashvals[i - g.symOffset];
      HashTells(d, s, i);
      if h == Or1(h2) && (d.versym.None? || d.versym.value[i] >= 0) {
        var same := NameEquals(d, s, i);
        if same {
          SearchEnds(d, s, i);
          return Some(i);
        }
      }
      SearchMoves(d, s, i);
      if h2 % 2 == 1 {
        return None;
      }
      i := i + 1;
    }
  }

  /** `f & 1 << k` and `f >> k & 1` both test bit k. */
  lemma {:induction false} AndBit(f: nat, k: nat)
    ensures And(f, Pow2(k)) != 0 <==> Bit(f, k)
  {
    if k == 0 {
      AndOdd(f, 0);
    } else if f > 0 {
      AndBit(f / 2, k - 1);
      AndEven(f, Pow2(k - 1));
      DivTwice(f, Pow2(k - 1));
    }
  }

  lemma DivTwice(f: nat, h: int)
    requires h > 0
    ensures f / (2 * h) == f / 2 / h
  {
    HalfMod(f, h);
    var q, r := f / 2 / h, f / 2 % h;
    DivUnique(f, 2 * h, q, 2 * r + f % 2);
  }

  /** `gnu_lookup_filtered`: the filter never hides a symbol that the scan would find. */
  method GnuLookupFiltered(h1: nat, d: Table, s: CString, fofs: nat, fmask: nat) returns (r: Option<nat>)
    requires ValidGnu(d) && h1 == HashOf(s) && fofs == h1 / 64 && fmask == Pow2(h1 % 64)
    ensures r == Scan(d, s, d.gnu.value.symOffset)
  {
    var g := d.gnu.value;
    var f := g.bloom[And(fofs, |g.bloom| - 1)];
    assert f == g.bloom[BloomIndex(g, h1)];
    AndBit(f, h1 % 64);
    if And(f, fmask) == 0 {
      return None;
    }
    f := f / Pow2(h1 / Pow2(g.shift) % 64);
    if f % 2 == 0 {
      return None;
    }
    r := GnuLookup(h1, d, s);
  }

  // ---------------------------------------------------------------- the System V table

  ghost function SysvHashOf(s: CString): nat {
    StandardHash(s) as nat
  }

  /** `path` is the chain of bucket `b`: from the bucket along the chain entries to the zero. */
  ghost predicate IsPath(d: Table, b: nat, path: seq<nat>)
    requires ValidSysvShape(d) && b < d.hashtab[0]
  {
    && (forall k :: 0 <= k < |path| ==> 1 <= path[k] < |d.syms|)
    && (forall j, k :: 0 <= j < k < |path| ==> path[j] != path[k])
    && d.hashtab[2 + b] == EntryAt(path, 0)
    && (forall k :: 0 <= k < |path| ==> ChainNext(d, path[k]) == EntryAt(path, k + 1))
  }

  /** The entry at a position of a path, whose end is marked by a zero. */
  ghost function EntryAt(path: seq<nat>, k: nat): nat {
    if k < |path| then path[k] else 0
  }

  ghost predicate ValidSysvShape(d: Table) {
    && ValidNames(d) && |d.hashtab| >= 2 && d.hashtab[0] > 0
    && |d.hashtab| == 2 + d.hashtab[0] + |d.syms|
  }

  ghost function ChainNext(d: Table, i: nat): nat
    requires ValidSysvShape(d) && i < |d.syms|
  {
    d.hashtab[2 + d.hashtab[0] + i]
  }

  /** Every bucket heads an acyclic chain. */
  ghost predicate ValidSysv(d: Table) {
    && ValidSysvShape(d)
    && forall b :: 0 <= b < d.hashtab[0] ==> HasPath(d, b)
  }

  ghost predicate HasPath(d: Table, b: nat)
    requires ValidSysvShape(d) && b < d.hashtab[0]
  {
    exists path :: IsPath(d, b, path)
  }

  ghost function PathOf(d: Table, s: CString): (path: seq<nat>)
    requires ValidSysv(d)
    ensures IsPath(d, SysvHashOf(s) % d.hashtab[0], path)
  {
    assert HasPath(d, SysvHashOf(s) % d.hashtab[0]);
    var path :| IsPath(d, SysvHashOf(s) % d.hashtab[0], path);
    path
  }

  /** Symbol `i` is on the chain of the bucket its name hashes to.  Linkers leave out local symbols. */
  ghost predicate Hashed(d: Table, i: nat)
    requires ValidSysv(d) && i < |d.syms|
  {
    i in PathOf(d, NameOf(d, i))
  }

  /** The first match along the chain of the name's bucket. */
  ghost function ChainScan(d: Table, s: CString): (r: Option<nat>)
    requires ValidSysv(d)
    ensures r.Some? ==> 1 <= r.value < |d.syms| && Matches(d, s, r.value)
    ensures r.None? ==> forall i :: 1 <= i < |d.syms| && Hashed(d, i) ==> !Matches(d, s, i)
  {
    PathScan(d, s, PathOf(d, s))
  }

  ghost function PathScan(d: Table, s: CString, path: seq<nat>): (r: Option<nat>)
    requires ValidNames(d) && forall k :: 0 <= k < |path| ==> 1 <= path[k] < |d.syms|
    ensures r.Some? ==> 1 <= r.value < |d.syms| && Matches(d, s, r.value)
    ensures r.None? ==> forall k :: 0 <= k < |path| ==> !Matches(d, s, path[k])
  {
    if path == [] then None
    else if Matches(d, s, path[0]) then Some(path[0])
    else PathScan(d, s, path[1..])
  }

  /** At most one symbol has this name with a version that is not hidden. */
  ghost predicate UniquelyNamed(d: Table, s: CString)
    requires ValidNames(d)
  {
    forall i, j :: 1 <= i < j < |d.syms| ==> !(Matches(d, s, i) && Matches(d, s, j))
  }

  lemma {:induction false} PathStarts(d: Table, s: CString)
    requires ValidSysv(d)
    ensures var path := PathOf(d, s);
            d.hashtab[2 + SysvHashOf(s) % d.hashtab[0]] == EntryAt(path, 0) && ChainScan(d, s) == Rest(d, s, 0)
  {
    assert PathOf(d, s)[0..] == PathOf(d, s);
  }

  lemma {:induction false} PathMoves(d: Table, s: CString, k: nat)
    requires ValidSysv(d) && k <= |PathOf(d, s)|
    ensures var path := PathOf(d, s);
            if k == |path| then EntryAt(path, k) == 0 && Rest(d, s, k) == None
            else
              && 1 <= path[k] == EntryAt(path, k) < |d.syms| && ChainNext(d, path[k]) == EntryAt(path, k + 1)
              && Rest(d, s, k) == if Matches(d, s, path[k]) then Some(path[k]) else Rest(d, s, k + 1)
  {
    hide ValidNames, Matches, SysvHashOf;
    var path := PathOf(d, s);
    if k < |path| {
      assert path[k..][1..] == path[k + 1..];
    }
  }

  /** The scan of a path from a position on. */
  ghost function Rest(d: Table, s: CString, k: nat): Option<nat>
    requires ValidSysv(d) && k <= |PathOf(d, s)|
  {
    PathScan(d, s, PathOf(d, s)[k..])
  }

  /** `sysv_lookup`. */
  method SysvLookup(s: CString, h: nat, d: Table) returns (r: Option<nat>)
    requires ValidSysv(d) && h == SysvHashOf(s)
    ensures r == ChainScan(d, s)
  {
    hide IsPath, HasPath, PathOf, PathScan, ChainScan, Rest, EntryAt;
    ghost var path := PathOf(d, s);
    ghost var k := 0;
    var i := d.hashtab[2 + h % d.hashtab[0]];
    PathStarts(d, s);
    PathMoves(d, s, 0);
    while i != 0
      invariant 0 <= k <= |path| && i == EntryAt(path, k) && ChainScan(d, s) == Rest(d, s, k)
      invariant k == |path| ==> i == 0 && Rest(d, s, k) == None
      invariant k < |path| ==> i != 0
      decreases |path| - k
    {
      PathMoves(d, s, k);
      if d.versym.None? || d.versym.value[i] >= 0 {
        var same := NameEquals(d, s, i);
        if same {
          return Some(i);
        }
      }
      i := d.hashtab[2 + d.hashtab[0] + i];
      k := k + 1;
      PathMoves(d, s, k);
    }
    return None;
  }

  /** What the chain finds is hashed if it has the name and hashes where it was found. */
  lemma {:induction false} FoundIsHashed(d: Table, s: CString)
    requires ValidSysv(d)
    ensures ChainScan(d, s).Some? ==> Hashed(d, ChainScan(d, s).value)
  {
    PathScanFinds(d, s, PathOf(d, s));
  }

  lemma {:induction false} PathScanFinds(d: Table, s: CString, path: seq<nat>)
    requires ValidNames(d) && forall k :: 0 <= k < |path| ==> 1 <= path[k] < |d.syms|
    ensures PathScan(d, s, path).Some? ==> PathScan(d, s, path).value in path
  {
    hide Matches;
    if path != [] {
      PathScanFinds(d, s, path[1..]);
    }
  }

  /** For a uniquely named symbol the chain finds what a scan of the whole table finds exactly when the
      symbol, if there is one, is hashed. */
  lemma {:induction false} ChainScanIsScanIff(d: Table, s: CString)
    requires ValidSysv(d) && |d.syms| >= 1 && UniquelyNamed(d, s)
    ensures ChainScan(d, s) == Scan(d, s, 1) <==>
              forall i :: 1 <= i < |d.syms| && Matches(d, s, i) ==> Hashed(d, i)
  {
    hide Hashed, HasPath, Matches, Scan, ChainScan;
    FoundIsHashed(d, s);
    var c, l := ChainScan(d, s), Scan(d, s, 1);
    if c.Some? {
      assert Matches(d, s, c.value);
    }
    if l.Some? {
      assert Matches(d, s, l.value);
    }
  }

  lemma {:induction false} GnuBounds(d: Table)
    requires ValidGnu(d)
    ensures ValidNames(d) && d.gnu.Some? && 1 <= d.gnu.value.symOffset <= |d.syms|
  {}

  /** For a uniquely named symbol both lookups return the same exactly when both sections index it or
      neither does. */
  lemma {:induction false} SectionsAgreeIff(d: Table, s: CString)
    requires ValidSysv(d) && ValidGnu(d) && UniquelyNamed(d, s)
    ensures ChainScan(d, s) == Scan(d, s, d.gnu.value.symOffset) <==>
              forall i :: 1 <= i < |d.syms| && Matches(d, s, i) ==> (Hashed(d, i) <==> d.gnu.value.symOffset <= i)
  {
    hide Hashed, ValidGnu, ValidSysv, Matches, Scan, ChainScan;
    FoundIsHashed(d, s);
    GnuBounds(d);
    var c, l := ChainScan(d, s), Scan(d, s, d.gnu.value.symOffset);
    if c.Some? {
      assert Matches(d, s, c.value);
    }
    if l.Some? {
      assert Matches(d, s, l.value);
    }
  }

  // ---------------------------------------------------------------- find_sym

  /** Types and bindings that may take part in dynamic linking. */
  predicate OkType(t: nat) {
    t in {0, 1, 2, 5, 6}
  }

  predicate OkBind(b: nat) {
    b in {1, 2, 10}
  }

  /** A found symbol may serve as the definition. */
  predicate Usable(y: Sym, needDef: bool) {
    && !(y.shndx == 0 && (needDef || y.typ == STT_TLS))
    && (y.value == 0 ==> y.typ == STT_TLS)
    && OkType(y.typ) && OkBind(y.bind)
  }

  ghost predicate ValidTable(d: Table) {
    if d.gnu.Some? then ValidGnu(d) else ValidSysv(d)
  }

  ghost predicate ValidChain(chain: seq<Table>) {
    forall k :: 0 <= k < |chain| ==> ValidTable(chain[k])
  }

  ghost function LookupIn(d: Table, s: CString): (r: Option<nat>)
    requires ValidTable(d)
    ensures r.Some? ==> r.value < |d.syms| && Matches(d, s, r.value)
  {
    if d.gnu.Some? then Scan(d, s, d.gnu.value.symOffset) else ChainScan(d, s)
  }

  datatype SymDef = SymDef(dso: nat, sym: nat)

  /** The definition a name resolves to: the first DSO of the chain with a usable symbol. */
  ghost function Resolve(chain: seq<Table>, s: CString, needDef: bool): (r: Option<SymDef>)
    requires ValidChain(chain)
    ensures r.Some? ==> r.value.dso < |chain| && r.value.sym < |chain[r.value.dso].syms|
    ensures r.Some? ==> Usable(chain[r.value.dso].syms[r.value.sym], needDef)
  {
    if chain == [] then None
    else
      var n := |chain| - 1;
      var r := Resolve(chain[..n], s, needDef);
      if r.Some? then r
      else
        var i := LookupIn(chain[n], s);
        if i.Some? && Usable(chain[n].syms[i.value], needDef) then Some(SymDef(n, i.value)) else None
  }

  /** The lookup in one DSO; the System V hash is computed when first needed. */
  method LookupSym(dso: Table, s: CString, gh: nat, h: nat) returns (sym: Option<nat>, h': nat)
    requires ValidTable(dso) && gh == HashOf(s) && (h == 0 || h == SysvHashOf(s))
    ensures sym == LookupIn(dso, s) && (h' == 0 || h' == SysvHashOf(s))
  {
    h' := h;
    if dso.gnu.Some? {
      sym := GnuLookupFiltered(gh, dso, s, gh / 64, Pow2(gh % 64));
    } else {
      if h' == 0 {
        StringItself(s);
        var h32 := ComputeSysvHash(s + [0], 0);
        h' := h32 as nat;
      }
      sym := SysvLookup(s, h', dso);
    }
  }

  /** `find_sym`. */
  method FindSym(chain: seq<Table>, s: CString, needDef: bool) returns (def: Option<SymDef>)
    requires ValidChain(chain)
    ensures def == Resolve(chain, s, needDef)
  {
    StringItself(s);
    var h: nat := 0;
    var gh32 := ComputeGnuHash(s + [0], 0);
    var gh := gh32 as nat;
    for k := 0 to |chain|
      invariant h == 0 || h == SysvHashOf(s)
      invariant Resolve(chain[..k], s, needDef) == None
    {
      var dso := chain[k];
      assert ValidTable(dso);
      assert chain[..k + 1][..k] == chain[..k];
      var sym: Option<nat>;
      sym, h := LookupSym(dso, s, gh, h);
      if sym.Some? && Usable(dso.syms[sym.value], needDef) {
        ResolvePrefix(chain, k + 1, s, needDef);
        return Some(SymDef(k, sym.value));
      }
    }
    assert chain[..|chain|] == chain;
    return None;
  }

  lemma {:induction false} ResolvePrefix(chain: seq<Table>, k: nat, s: CString, needDef: bool)
    requires ValidChain(chain) && k <= |chain| && Resolve(chain[..k], s, needDef).Some?
    ensures Resolve(chain, s, needDef) == Resolve(chain[..k], s, needDef)
  {
    if k == |chain| {
      assert chain[..k] == chain;
    } else {
      assert chain[..|chain| - 1][..k] == chain[..k];
      ResolvePrefix(chain[..|chain| - 1], k, s, needDef);
    }
  }

  /** Appending DSOs to the chain never changes a symbol that already resolves. */
  lemma AppendKeepsResolution(chain: seq<Table>, more: seq<Table>, s: CString, needDef: bool)
    requires ValidChain(chain + more) && ValidChain(chain)
    requires Resolve(chain, s, needDef).Some?
    ensures Resolve(chain + more, s, needDef) == Resolve(chain, s, needDef)
  {
    assert (chain + more)[..|chain|] == chain;
    ResolvePrefix(chain + more, |chain|, s, needDef);
  }

  /** A definition in one DSO of the chain is enough for the name to resolve. */
  lemma {:induction false} MemberResolves(chain: seq<Table>, k: nat, s: CString, needDef: bool)
    requires ValidChain(chain) && k < |chain| && Resolve([chain[k]], s, needDef).Some?
    ensures Resolve(chain, s, needDef).Some?
  {
    hide LookupIn, Usable, ValidTable;
    assert [chain[k]][..0] == [];
    var upTo := chain[..k + 1];
    assert upTo[..k] == chain[..k];
    assert Resolve(upTo, s, needDef).Some?;
    ResolvePrefix(chain, k + 1, s, needDef);
  }
}
