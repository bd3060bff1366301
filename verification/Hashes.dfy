/** The strings and the two string hashes that symbol lookup rests on: `dl_strcmp`, `sysv_hash` and
    `gnu_hash`. */
module Hashes {
  import opened Basics

  // ---------------------------------------------------------------- strings

  /** The index of the first zero byte at or after `i`. */
  function Terminator(mem: seq<byte>, i: nat): (e: nat)
    requires exists k :: i <= k < |mem| && mem[k] == 0
    ensures i <= e < |mem| && mem[e] == 0 && forall k :: i <= k < e ==> mem[k] != 0
    decreases |mem| - i
  {
    if i < |mem| && mem[i] == 0 then i else Terminator(mem, i + 1)
  }

  ghost predicate Terminated(mem: seq<byte>, i: nat) {
    exists k :: i <= k < |mem| && mem[k] == 0
  }

  /** The string stored at offset `i`. */
  function StringAt(mem: seq<byte>, i: nat): (s: CString)
    requires Terminated(mem, i)
  {
    mem[i..Terminator(mem, i)]
  }

  /** `dl_strcmp`, used only for its being zero: the strings are the same. */
  method StrCmp(l: seq<byte>, i: nat, r: seq<byte>, j: nat) returns (diff: int)
    requires Terminated(l, i) && Terminated(r, j)
    ensures diff == 0 <==> StringAt(l, i) == StringAt(r, j)
  {
    ghost var le, re := Terminator(l, i), Terminator(r, j);
    var k := 0;
    while l[i + k] == r[j + k] && l[i + k] != 0
      invariant i + k <= le && j + k <= re
      invariant l[i..i + k] == r[j..j + k]
      decreases le - (i + k)
    {
      assert l[i..i + k + 1] == l[i..i + k] + [l[i + k]];
      assert r[j..j + k + 1] == r[j..j + k] + [r[j + k]];
      assert i + k < le && j + k < re;
      k := k + 1;
    }
    diff := l[i + k] as int - r[j + k] as int;
    assert diff == 0 ==> i + k == le && j + k == re;
    assert diff != 0 && i + k < le && j + k < re ==> StringAt(l, i)[k] != StringAt(r, j)[k];
  }

  // ---------------------------------------------------------------- the hashes

  function Widen(c: byte): bv32 {
    c as bv32
  }

  function Plus(a: bv32, b: bv32): bv32 {
    a + b
  }

  function Fold(x: bv32): bv32 {
    x ^ ((x >> 24) & 0xf0)
  }

  /** One round of the loop of `sysv_hash`: `h = 16*h + c`, then fold the top bits in, unmasked. */
  function SysvRound(h: bv32, c: bv32): bv32 {
    Fold(Plus(16 * h, c))
  }

  function Low28(h: bv32): bv32 {
    h & 0x0fff_ffff
  }

  /** The state of the loop after the bytes of `s`. */
  function SysvState(s: seq<byte>): bv32 {
    if s == [] then 0 else SysvRound(SysvState(s[..|s| - 1]), Widen(s[|s| - 1]))
  }

  function SysvHash(s: seq<byte>): bv32 {
    Low28(SysvState(s))
  }

  /** A round of the hash given in the System V ABI, chapter 5, "Hash Table": it clears the top four
      bits after every byte. */
  function StandardRound(h: bv32, c: bv32): bv32 {
    StandardFold(Plus(h << 4, c))
  }

  function StandardFold(x: bv32): bv32 {
    var g := Top4(x);
    ClearBits(if g != 0 then XorDown(x, g) else x, g)
  }

  function Top4(x: bv32): bv32 {
    x & 0xf000_0000
  }

  function XorDown(x: bv32, g: bv32): bv32 {
    x ^ (g >> 24)
  }

  function ClearBits(x: bv32, g: bv32): bv32 {
    x & !g
  }

  function StandardHash(s: seq<byte>): bv32 {
    if s == [] then 0 else StandardRound(StandardHash(s[..|s| - 1]), Widen(s[|s| - 1]))
  }

  lemma FoldMasked(x: bv32)
    ensures Low28(Fold(x)) == ClearBits(XorDown(x, Top4(x)), Top4(x))
  {}

  lemma XorDownNothing(x: bv32)
    ensures XorDown(x, 0) == x
  {}

  lemma FoldsAgree(x: bv32)
    ensures Low28(Fold(x)) == StandardFold(x)
  {
    hide Low28, Fold, Top4, XorDown, ClearBits;
    FoldMasked(x);
    XorDownNothing(x);
  }

  lemma ShiftDropsTop(h: bv32)
    ensures 16 * h == Low28(h) << 4
  {}

  /** What the unmasked state carries in its top four bits never reaches the low ones. */
  lemma RoundsAgree(h: bv32, c: bv32)
    ensures Low28(SysvRound(h, c)) == StandardRound(Low28(h), c)
  {
    hide Fold, StandardFold, Low28, Plus;
    ShiftDropsTop(h);
    FoldsAgree(Plus(16 * h, c));
  }

  /** Masking once at the end gives the standard's hash of every string. */
  lemma {:induction false} SysvHashIsStandard(s: seq<byte>)
    ensures SysvHash(s) == StandardHash(s)
  {
    hide SysvRound, StandardRound, Widen;
    if s == [] {
      LowOfZero();
    } else {
      hide Low28;
      SysvHashIsStandard(s[..|s| - 1]);
      RoundsAgree(SysvState(s[..|s| - 1]), Widen(s[|s| - 1]));
    }
  }

  lemma LowOfZero()
    ensures Low28(0) == 0
  {}

  /** One round of `gnu_hash`: `h += h*32 + c`. */
  function GnuRound(h: bv32, c: bv32): bv32 {
    h + (h * 32 + c)
  }

  /** The GNU hash. */
  function GnuHash(s: seq<byte>): bv32 {
    if s == [] then 5381 else GnuRound(GnuHash(s[..|s| - 1]), Widen(s[|s| - 1]))
  }

  method ComputeSysvHash(mem: seq<byte>, i: nat) returns (h: bv32)
    requires Terminated(mem, i)
    ensures h == StandardHash(StringAt(mem, i))
  {
    ghost var e := Terminator(mem, i);
    h := 0;
    var k := i;
    while mem[k] != 0
      invariant i <= k <= e
      invariant h == SysvState(mem[i..k])
      decreases e - k
    {
      assert mem[i..k + 1][..k - i] == mem[i..k];
      h := SysvRound(h, Widen(mem[k]));
      k := k + 1;
    }
    h := Low28(h);
    SysvHashIsStandard(mem[i..e]);
  }

  method ComputeGnuHash(mem: seq<byte>, i: nat) returns (h: bv32)
    requires Terminated(mem, i)
    ensures h == GnuHash(StringAt(mem, i))
  {
    ghost var e := Terminator(mem, i);
    h := 5381;
    var k := i;
    while mem[k] != 0
      invariant i <= k <= e
      invariant h == GnuHash(mem[i..k])
      decreases e - k
    {
      assert mem[i..k + 1][..k - i] == mem[i..k];
      h := GnuRound(h, Widen(mem[k]));
      k := k + 1;
    }
  }
}
