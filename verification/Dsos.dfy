/** What the loader links together: the DSOs, the files they come from and where names lead, and what
    sequences of DSOs are. */
module Dsos {
  import opened Basics
  import opened Words
  import opened TlsLayout

  /** `(st_dev, st_ino)`. */
  datatype Ident = Ident(dev: nat, ino: nat)

  /** A file as a name leads to it: its pathname, identity, DT_NEEDED names, TLS, whether it forbids lazy
      binding, and whether it defines the symbols by which a second libc is recognised. */
  datatype File = File(path: string, ident: Ident, needed: seq<string>, tls: Option<TlsSegment>, bindNow: bool,
                       isLibc: bool)

  /** Where names lead: pathnames by themselves, other names depending on who asks, because the search
      follows the run paths of the chain of requesters. */
  datatype FileSystem = FileSystem(paths: map<string, File>, searches: map<(string, string), File>)

  ghost function Idents(fs: FileSystem): set<Ident> {
    (set n | n in fs.paths :: fs.paths[n].ident) + (set n | n in fs.searches :: fs.searches[n].ident)
  }

  /** The file a request for `name` leads to; names that are too long lead nowhere. */
  function Lookup(fs: FileSystem, name: string, requester: string): (f: Option<File>)
    ensures f.Some? ==> f.value.ident in Idents(fs)
    ensures '/' !in name && |name| > NAME_MAX ==> f.None?
  {
    if '/' in name then
      if name in fs.paths then Some(fs.paths[name]) else None
    else if |name| <= NAME_MAX && (name, requester) in fs.searches then Some(fs.searches[(name, requester)]) else None
  }

  class Dso {
    const name: string
    const ident: Ident
    const needed: seq<string>
    const bindNow: bool
    const tls: Option<TlsSegment>
    /** Allocated by `load_library`; not the program, the linker or the vdso. */
    const fromFile: bool
    var shortname: Option<string>
    var next: Dso?
    var prev: Dso?
    var symsNext: Dso?
    var lazyNext: Dso?
    var tlsNext: Dso?
    var tlsId: nat
    var tlsOffset: word
    var deps: Option<seq<Dso>>
    var relocated: bool
    /** `lazy_cnt`: how many entries of its lazy table are still unresolved. */
    var pending: nat

    constructor (f: File, shortname: Option<string>)
      ensures name == f.path && ident == f.ident && needed == f.needed && bindNow == f.bindNow && tls == f.tls
      ensures fromFile
      ensures this.shortname == shortname && deps == None && !relocated
      ensures Unlinked(this)
    {
      name, ident, needed, bindNow, tls, fromFile := f.path, f.ident, f.needed, f.bindNow, f.tls, true;
      this.shortname, deps, relocated, pending := shortname, None, false, 0;
      next, prev, symsNext, lazyNext, tlsNext := null, null, null, null, null;
      tlsId, tlsOffset := 0, 0;
    }

    /** The program, the linker and the vdso, which no file search brought in. */
    constructor Static(name: string, shortname: Option<string>, needed: seq<string>, bindNow: bool,
                       tls: Option<TlsSegment>)
      ensures this.name == name && ident == Ident(0, 0) && this.needed == needed && this.bindNow == bindNow
      ensures this.tls == tls && !fromFile
      ensures this.shortname == shortname && deps == None && !relocated && Unlinked(this)
    {
      this.name, ident, this.needed, this.bindNow := name, Ident(0, 0), needed, bindNow;
      this.tls, fromFile := tls, false;
      this.shortname, deps, relocated, pending := shortname, None, false, 0;
      next, prev, symsNext, lazyNext, tlsNext := null, null, null, null, null;
      tlsId, tlsOffset := 0, 0;
    }
  }

  /** The DSO was made from this file. */
  predicate MadeFrom(d: Dso, f: File) {
    && d.fromFile && d.name == f.path && d.ident == f.ident && d.needed == f.needed && d.bindNow == f.bindNow
    && d.tls == f.tls
  }

  /** The DSO was made from the file that this request leads to. */
  predicate MadeFor(fs: FileSystem, w: Want, d: Dso) {
    var f := Lookup(fs, w.name, w.requester);
    f.Some? && MadeFrom(d, f.value)
  }

  /** It was made from some file that a request leads to. */
  ghost predicate IsOfFiles(fs: FileSystem, d: Dso) {
    exists w :: MadeFor(fs, w, d)
  }

  const NAME_MAX: nat := 255

  /** The names by which programs ask for the implementation itself: `lib` followed by one of these. */
  const RESERVED: seq<string> := ["c.", "pthread.", "rt.", "m.", "dl.", "util.", "xnet."]

  predicate IsReserved(name: string) {
    |name| >= 3 && name[..3] == "lib" && exists k :: 0 <= k < |RESERVED| && RESERVED[k] <= name[3..]
  }

  /** What follows the last slash. */
  function BaseName(path: string): string {
    if '/' !in path then path else BaseName(path[IndexOfSlash(path) + 1..])
  }

  function IndexOfSlash(path: string): (i: nat)
    requires '/' in path
    ensures i < |path| && path[i] == '/'
  {
    if path[0] == '/' then 0 else 1 + IndexOfSlash(path[1..])
  }

  /** The dependencies recorded with a DSO. */
  ghost function DepsOf(d: Dso): seq<Dso>
    reads d`deps
  {
    if d.deps.Some? then d.deps.value else []
  }

  ghost function WithDeps(d: Dso): seq<Dso>
    reads d`deps
  {
    [d] + DepsOf(d)
  }

  /** The modules of DSOs that have TLS, with the offsets they were given. */
  ghost function Modules(s: seq<Dso>): (ms: seq<TlsModule>)
    requires forall i :: 0 <= i < |s| ==> s[i].tls.Some?
    reads s`tlsOffset
    ensures |ms| == |s|
  {
    if s == [] then []
    else Modules(s[..|s| - 1]) + [TlsModule(s[|s| - 1].tls.value, s[|s| - 1].tlsOffset)]
  }

  lemma {:induction false} ModulesNext(s: seq<Dso>, d: Dso)
    requires (forall i :: 0 <= i < |s| ==> s[i].tls.Some?) && d.tls.Some?
    ensures Modules(s + [d]) == Modules(s) + [TlsModule(d.tls.value, d.tlsOffset)]
  {
    assert (s + [d])[..|s|] == s;
  }

  twostate lemma {:induction false} ModulesSame(s: seq<Dso>)
    requires forall i :: 0 <= i < |s| ==> s[i].tls.Some? && s[i].tlsOffset == old(s[i].tlsOffset)
    ensures Modules(s) == old(Modules(s))
  {
    if s != [] {
      ModulesSame(s[..|s| - 1]);
    }
  }

  lemma {:induction false} ModuleAt(s: seq<Dso>, i: nat)
    requires i < |s| && forall i :: 0 <= i < |s| ==> s[i].tls.Some?
    ensures Modules(s)[i] == TlsModule(s[i].tls.value, s[i].tlsOffset)
  {
    if i < |s| - 1 {
      ModuleAt(s[..|s| - 1], i);
    }
  }

  /** Not linked to anything yet. */
  ghost predicate Unlinked(d: Dso)
    reads d
  {
    d.next == null && d.prev == null && d.symsNext == null && d.lazyNext == null && d.tlsNext == null && d.tlsId == 0
  }

  ghost predicate Distinct(s: seq<Dso>) {
    forall i, j :: 0 <= i < j < |s| ==> s[i] != s[j]
  }

  /** A DT_NEEDED entry: the name, and the name of the DSO that has it. */
  datatype Want = Want(name: string, requester: string)

  ghost function Wants(q: Dso, m: nat): seq<Want>
    requires m <= |q.needed|
  {
    seq(m, i requires 0 <= i < m => Want(q.needed[i], q.name))
  }

  /** The entries of one DSO after the other. */
  ghost function AllWants(s: seq<Dso>): seq<Want> {
    if s == [] then [] else AllWants(s[..|s| - 1]) + Wants(s[|s| - 1], |s[|s| - 1].needed|)
  }

  lemma {:induction false} MoreWanted(was: seq<Dso>, now: seq<Dso>, k: nat, i: nat)
    requires k <= i < |was| && was <= now
    ensures AllWants(now[k..i + 1]) == AllWants(was[k..i]) + Wants(was[i], |was[i].needed|)
  {
    assert now[k..i + 1][..i - k] == was[k..i];
  }

  /** The entries of the first DSOs come first. */
  lemma {:induction false} WantsBegin(s: seq<Dso>, n: nat)
    requires n <= |s|
    ensures AllWants(s[..n]) <= AllWants(s)
  {
    if n < |s| {
      WantsBegin(s[..|s| - 1], n);
      assert s[..|s| - 1][..n] == s[..n];
    } else {
      assert s[..n] == s;
    }
  }

  /** Every entry is among them. */
  lemma {:induction false} WhereWanted(s: seq<Dso>, j: nat, m: nat) returns (i: nat)
    requires j < |s| && m < |s[j].needed|
    ensures i < |AllWants(s)| && AllWants(s)[i] == Want(s[j].needed[m], s[j].name)
  {
    if j == |s| - 1 {
      i := |AllWants(s[..|s| - 1])| + m;
    } else {
      i := WhereWanted(s[..|s| - 1], j, m);
    }
  }

  lemma {:induction false} SelfShrinks(all: set<Ident>, was: seq<Dso>, ldso: Dso)
    requires |was| > 0 && ldso !in was
    ensures Unloaded(all, was + [ldso], ldso) < Unloaded(all, was, ldso)
  {
    UnloadedShrinks(all, was, was + [ldso], ldso, ldso);
  }

  /** The DSOs that get a table for deferred relocations, as often as they come up. */
  ghost function Prepared(s: seq<Dso>, done: seq<Dso>): seq<Dso> {
    if s == [] then []
    else
      var d := s[|s| - 1];
      Prepared(s[..|s| - 1], done) + if d in done || d.bindNow then [] else [d]
  }

  lemma {:induction false} AllPrepared(s: seq<Dso>, done: seq<Dso>)
    requires forall i :: 0 <= i < |s| ==> !s[i].bindNow && s[i] !in done
    ensures Prepared(s, done) == s
  {
    if s != [] {
      AllPrepared(s[..|s| - 1], done);
    }
  }

  /** No DSO that needs a table comes up twice. */
  ghost predicate NoneTwice(s: seq<Dso>, done: seq<Dso>) {
    forall i, j :: 0 <= i < j < |s| && s[i] == s[j] ==> s[i] in done || s[i].bindNow
  }

  lemma {:induction false} PreparedOnceIff(s: seq<Dso>, done: seq<Dso>)
    ensures Distinct(Prepared(s, done)) <==> NoneTwice(s, done)
    ensures forall d :: d in Prepared(s, done) <==> d in s && d !in done && !d.bindNow
  {
    if s != [] {
      var n := |s| - 1;
      var rest, d := s[..n], s[n];
      PreparedOnceIff(rest, done);
      assert s == rest + [d];
      assert NoneTwice(s, done) <==> NoneTwice(rest, done) && (d in rest ==> d in done || d.bindNow) by {
        if NoneTwice(s, done) && d in rest {
          var i :| 0 <= i < n && rest[i] == d;
          assert s[i] == s[n];
        }
      }
      if d in done || d.bindNow {
        assert Prepared(s, done) == Prepared(rest, done);
      } else {
        assert Prepared(s, done) == Prepared(rest, done) + [d];
        OneMoreDistinct(Prepared(rest, done), d);
      }
    }
  }

  lemma {:induction false} OneMoreDistinct(s: seq<Dso>, d: Dso)
    ensures Distinct(s + [d]) <==> Distinct(s) && d !in s
  {
    var t := s + [d];
    if Distinct(t) {
      forall i, j | 0 <= i < j < |s| ensures s[i] != s[j] {
        assert t[i] != t[j];
      }
      forall i | 0 <= i < |s| ensures s[i] != d {
        assert t[i] != t[|s|];
      }
    }
  }

  lemma {:induction false} PreparedNext(s: seq<Dso>, i: nat, done: seq<Dso>)
    requires i < |s|
    ensures Prepared(s[..i + 1], done) == Prepared(s[..i], done) + if s[i] in done || s[i].bindNow then [] else [s[i]]
    ensures Prepared([], done) == [] && s[..0] == []
  {
    assert s[..i + 1][..i] == s[..i];
  }

  lemma {:induction false} DistinctTail(s: seq<Dso>, i: nat)
    requires Distinct(s) && i < |s|
    ensures s[i] !in s[i + 1..]
  {
    var tail := s[i + 1..];
    forall k | 0 <= k < |tail| ensures tail[k] != s[i] {
      assert tail[k] == s[i + 1 + k];
    }
  }

  lemma {:induction false} DistinctFits(s: seq<Dso>, all: set<Dso>)
    requires Distinct(s) && forall d :: d in s ==> d in all
    ensures |s| <= |all|
  {
    if s != [] {
      var d := s[|s| - 1];
      DistinctFits(s[..|s| - 1], all - {d});
    }
  }

  /** No two DSOs that `load_library` allocated are the same file. */
  ghost predicate OneOfEachFile(s: seq<Dso>) {
    forall i, j :: 0 <= i < j < |s| && s[i].fromFile && s[j].fromFile ==> s[i].ident != s[j].ident
  }

  lemma {:induction false} IdentsFit(s: seq<Dso>, all: set<Ident>)
    requires OneOfEachFile(s) && forall i :: 0 <= i < |s| ==> s[i].fromFile && s[i].ident in all
    ensures |s| <= |all|
  {
    if s != [] {
      var n := |s| - 1;
      IdentsFit(s[..n], all - {s[n].ident});
    }
  }

  ghost function Members(s: seq<Dso>): set<Dso> {
    set d | d in s
  }

  ghost predicate Again(s: seq<Dso>, i: nat) {
    i < |s| && s[i] in s[i + 1..]
  }

  /** No other DSO comes again further on. */
  ghost predicate IsLastRepeat(s: seq<Dso>, i: nat) {
    Again(s, i) && forall q :: i < q < |s| ==> !Again(s, q)
  }

  /** What comes after the last repeat: the longest end without one. */
  ghost function Latest(s: seq<Dso>): (r: seq<Dso>)
    ensures |r| <= |s| && forall d :: d in r ==> d in s
  {
    if Distinct(s) || s == [] then s else Latest(s[1..])
  }

  lemma {:induction false} LastRepeat(s: seq<Dso>) returns (i: nat)
    requires !Distinct(s)
    ensures IsLastRepeat(s, i) && Latest(s) == s[i + 1..]
  {
    if s[0] in s[1..] && Distinct(s[1..]) {
      i := 0;
      assert Latest(s) == Latest(s[1..]);
      forall q | 0 < q < |s| ensures !Again(s, q) {
        DistinctTail(s[1..], q - 1);
        assert s[1..][q..] == s[q + 1..];
      }
    } else {
      RestRepeats(s);
      var j := LastRepeat(s[1..]);
      i := j + 1;
      assert s[1..][j + 1..] == s[i + 1..];
      forall q | i < q < |s| ensures !Again(s, q) {
        assert !Again(s[1..], q - 1);
        assert s[q] == s[1..][q - 1] && s[1..][q..] == s[q + 1..];
      }
    }
  }

  lemma {:induction false} RestRepeats(s: seq<Dso>)
    requires !Distinct(s) && !(s[0] in s[1..] && Distinct(s[1..]))
    ensures !Distinct(s[1..])
  {
    var i, j :| 0 <= i < j < |s| && s[i] == s[j];
    assert s[1..][j - 1] == s[j];
    if i > 0 {
      assert s[1..][i - 1] == s[1..][j - 1];
    }
  }

  /** How much there is still to load: files not yet on the list, and the linker itself. */
  ghost function Unloaded(all: set<Ident>, list: seq<Dso>, ldso: Dso): nat {
    |all - LoadedIdents(list)| + if ldso in list then 0 else 1
  }

  lemma {:induction false} UnloadedShrinks(all: set<Ident>, was: seq<Dso>, now: seq<Dso>, ldso: Dso, p: Dso?)
    requires |was| > 0 && (now != was ==> p != null && now == was + [p] && (p == ldso ==> ldso !in was))
    requires now != was && p != ldso ==> p.ident in all && forall i :: 1 <= i < |was| ==> was[i].ident != p.ident
    ensures now != was ==> Unloaded(all, now, ldso) < Unloaded(all, was, ldso)
  {
    if now != was {
      LoadsShrink(all, was, p);
      assert p in now;
    }
  }

  ghost function LoadedIdents(list: seq<Dso>): set<Ident> {
    set k | 1 <= k < |list| :: list[k].ident
  }

  /** Appending a DSO leaves less to load. */
  lemma {:induction false} LoadsShrink(all: set<Ident>, list: seq<Dso>, p: Dso)
    requires |list| > 0
    ensures all - LoadedIdents(list + [p]) <= all - LoadedIdents(list)
    ensures p.ident in all && p.ident !in LoadedIdents(list) ==>
              |all - LoadedIdents(list + [p])| < |all - LoadedIdents(list)|
    ensures |all - LoadedIdents(list + [p])| <= |all - LoadedIdents(list)|
  {
    var a, b := all - LoadedIdents(list), all - LoadedIdents(list + [p]);
    var n := |list|;
    assert (list + [p])[n] == p;
    assert p.ident in LoadedIdents(list + [p]);
    forall i | i in LoadedIdents(list) ensures i in LoadedIdents(list + [p]) {
      var k :| 1 <= k < n && list[k].ident == i;
      assert (list + [p])[k].ident == i;
    }
    SubsetSize(b, a);
    if p.ident in all && p.ident !in LoadedIdents(list) {
      SubsetSize(b, a - {p.ident});
    }
  }

  lemma {:induction false} SubsetSize<T>(a: set<T>, b: set<T>)
    requires a <= b
    ensures |a| <= |b|
  {
    assert b == a + (b - a);
  }

  ghost function Next(s: seq<Dso>, i: nat, end: Dso?): Dso? {
    if i + 1 < |s| then s[i + 1] else end
  }

  ghost function Previous(s: seq<Dso>, i: nat, start: Dso?): Dso? {
    if 0 < i <= |s| then s[i - 1] else start
  }

  lemma {:induction false} BeyondPrefix(s: seq<Dso>, n: nat, d: Dso) returns (i: nat)
    requires n <= |s| && d in s && d !in s[..n]
    ensures n <= i < |s| && s[i] == d
  {
    assert s == s[..n] + s[n..];
    var k: nat :| k < |s[n..]| && s[n..][k] == d;
    i := n + k;
  }
}
