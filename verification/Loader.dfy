/** Loading libraries: the load list, the symbol chain and the TLS module list as `load_library`,
    `load_deps`, `add_syms`, `revert_syms` and `dlopen` keep them, linked through the DSOs themselves. */
module Loader {
  import opened Basics
  import opened Words
  import opened TlsLayout
  import opened Dsos

  /** What a walk of the lazy list has seen: the links as they were, the first DSO, and the DSOs met. */
  datatype Round = Round(links: map<Dso, Dso?>, start: Dso?, met: seq<Dso>)

  /** How far it is: whether it is back at a DSO it has met, `end`, and the DSOs that have had a turn. */
  datatype Walk = Walk(round: Round, again: bool, k: nat, end: Dso?, turns: seq<Dso>)

  datatype Call = Call(fs: FileSystem, file: string, global: bool, lazy: bool, noload: bool)

  class Linker {
    /** The linker's own DSO. */
    const ldso: Dso
    const minAlign: word
    /** No request to the kernel or to `malloc` fails. */
    const calm: bool
    var head: Dso
    var tail: Dso
    var symsTail: Dso
    var lazyHead: Dso?
    var tlsHead: Dso?
    var tlsTail: Dso?
    var tlsCnt: nat
    var tlsOffset: word
    var tlsAlign: word

    /** The load list, the symbol chain and the TLS module list, in order. */
    ghost var list: seq<Dso>
    ghost var syms: seq<Dso>
    ghost var tls: seq<Dso>

    /** `next` and `prev` link the load list; the linker is on it when its `prev` is set. */
    ghost predicate ListOk()
      reads this`list, this`head, this`tail, list`next, list`prev, ldso`next, ldso`prev
    {
      && |list| > 0 && list[0] == head && list[|list| - 1] == tail && Distinct(list)
      && (forall i :: 0 <= i < |list| - 1 ==> list[i].next == list[i + 1])
      && tail.next == null
      && (forall i :: 1 <= i < |list| ==> list[i].prev == list[i - 1])
      && head.prev == null
      && (ldso.prev != null <==> ldso in list)
      && (ldso !in list ==> ldso.next == null)
    }

    /** `symsNext` links the symbol chain, which starts at the head of the load list; a DSO is on it
        exactly when its link is set or it is the tail. */
    ghost predicate SymsOk()
      reads this`list, this`head, this`syms, this`symsTail, list`symsNext, ldso`symsNext
    {
      && |syms| > 0 && syms[0] == head && syms[|syms| - 1] == symsTail && Distinct(syms)
      && (forall i :: 0 <= i < |syms| ==> syms[i] in list)
      && (forall i :: 0 <= i < |syms| - 1 ==> syms[i].symsNext == syms[i + 1])
      && symsTail.symsNext == null
      && (forall d :: d in list && d !in syms ==> d.symsNext == null)
      && (ldso !in list ==> ldso.symsNext == null)
    }

    /** `tlsNext` links the modules with TLS, whose identifiers count up from 1. */
    ghost predicate TlsOk()
      reads this`list, this`tls, this`tlsHead, this`tlsTail, this`tlsCnt, list`tlsNext, list`tlsId
    {
      && tlsCnt == |tls| && Distinct(tls)
      && (tls == [] ==> tlsHead == null && tlsTail == null)
      && (tls != [] ==> tlsHead == tls[0] && tlsTail == tls[|tls| - 1])
      && (forall i :: 0 <= i < |tls| ==> tls[i] in list && tls[i].tlsId == i + 1)
      && (forall i :: 0 <= i < |tls| - 1 ==> tls[i].tlsNext == tls[i + 1])
      && (tls != [] ==> tls[|tls| - 1].tlsNext == null)
    }

    /** No two DSOs that `load_library` allocated are the same file. */
    ghost predicate IdentsOk()
      reads this`list
    {
      (list != [] ==> !list[0].fromFile) && !ldso.fromFile && OneOfEachFile(list)
    }

    /** Every module has the offset that goes with the modules before it, and the counters are those
        that the modules give rise to. */
    ghost predicate TlsPlaced()
      reads this`tls, this`tlsOffset, this`tlsAlign, this`head, tls`tlsOffset
    {
      && (forall i :: 0 <= i < |tls| ==> tls[i].tls.Some?)
      && (forall i :: 0 <= i < |tls| ==> tls[i].tlsOffset == OffsetOf(i))
      && GiveRise(tls, tlsOffset, tlsAlign)
    }

    /** The modules leave the counters at these values. */
    ghost predicate GiveRise(s: seq<Dso>, offset: word, align: word)
      requires forall i :: 0 <= i < |s| ==> s[i].tls.Some?
      reads s`tlsOffset
    {
      State(offset, align, Modules(s)) == StateAt(minAlign, Modules(s))
    }

    ghost function OffsetOf(i: nat): word
      requires i < |tls| && tls[i].tls.Some?
      reads this`tls, this`head, tls`tlsOffset
    {
      if i == 0 && tls[0] == head then FirstOffset(tls[0].tls.value)
      else NextOffset(if i == 0 then 0 else tls[i - 1].tlsOffset, tls[i].tls.value)
    }

    ghost predicate Valid()
      reads this, list, ldso
    {
      ListOk() && SymsOk() && TlsOk() && IdentsOk() && TlsPlaced()
    }

    /** A request to the kernel or to `malloc`, which may fail at any time. */
    method Granted() returns (ok: bool)
      ensures calm ==> ok
    {
      ok := *;
      if calm {
        ok := true;
      }
    }

    /** The lists of a program before anything is loaded: the program alone, with its TLS if it has any. */
    constructor (app: Dso, ldso: Dso, minAlign: word, calm: bool)
      requires app != ldso && Unlinked(app) && Unlinked(ldso) && !app.fromFile && !ldso.fromFile
      modifies app`tlsId, app`tlsOffset
      ensures Valid() && list == [app] && syms == [app] && head == app && lazyHead == null
      ensures this.ldso == ldso && this.minAlign == minAlign && this.calm == calm
      ensures tls == if app.tls.Some? then [app] else []
      ensures tlsOffset == (if app.tls.Some? then FirstOffset(app.tls.value) else 0)
      ensures tlsAlign == (if app.tls.Some? then MaxP2(minAlign, app.tls.value.align) else minAlign)
    {
      hide ListOk, SymsOk, IdentsOk, TlsOk, TlsPlaced, FirstOffset, MaxP2;
      this.ldso, this.minAlign, this.calm := ldso, minAlign, calm;
      head, tail, symsTail := app, app, app;
      lazyHead, tlsHead, tlsTail := null, null, null;
      tlsCnt, tlsOffset, tlsAlign := 0, 0, minAlign;
      list, syms, tls := [app], [app], [];
      new;
      InitialLists(app);
      if app.tls.Some? {
        tlsHead, tlsTail, tlsCnt := app, app, 1;
        app.tlsId := 1;
        tlsOffset := FirstOffset(app.tls.value);
        app.tlsOffset := tlsOffset;
        tlsAlign := MaxP2(tlsAlign, app.tls.value.align);
        tls := [app];
      }
      InitialTls(app);
      InitialPlaces(app);
    }

    lemma {:induction false} InitialPlaces(app: Dso)
      requires head == app && tls == if app.tls.Some? then [app] else []
      requires app.tls.Some? ==> app.tlsOffset == tlsOffset
      requires tlsOffset == (if app.tls.Some? then FirstOffset(app.tls.value) else 0)
      requires tlsAlign == (if app.tls.Some? then MaxP2(minAlign, app.tls.value.align) else minAlign)
      ensures TlsPlaced()
    {
      hide FirstOffset, MaxP2;
      if app.tls.Some? {
        ModulesNext([], app);
        assert [] + [app] == [app];
        StateNext(minAlign, [], TlsModule(app.tls.value, app.tlsOffset));
      }
    }

    lemma {:induction false} InitialTls(app: Dso)
      requires list == [app] && app.tlsNext == null
      requires (tls == [] && tlsHead == null && tlsTail == null && tlsCnt == 0)
               || (tls == [app] && tlsHead == app && tlsTail == app && tlsCnt == app.tlsId == 1)
      ensures TlsOk()
    {}

    lemma {:induction false} InitialLists(app: Dso)
      requires list == [app] && syms == [app] && head == tail == symsTail == app && app != ldso
      requires app.next == null && app.prev == null && app.symsNext == null && !app.fromFile && !ldso.fromFile
      requires ldso.next == null && ldso.prev == null && ldso.symsNext == null
      ensures ListOk() && SymsOk() && IdentsOk()
    {}

    // -------------------------------------------------------------- the symbol chain

    /** The test that `add_syms` makes is membership. */
    lemma {:induction false} MemberIffLinked(p: Dso)
      requires Valid() && p in list
      ensures p in syms <==> p.symsNext != null || symsTail == p
    {
      assert symsTail in syms;
      if p in syms {
        var i :| 0 <= i < |syms| && syms[i] == p;
        assert i < |syms| - 1 ==> syms[i].symsNext == syms[i + 1];
      }
    }

    /** `add_syms`. */
    method AddSyms(p: Dso)
      requires Valid() && p in list
      modifies this`symsTail, this`syms, list`symsNext
      ensures Valid()
      ensures syms == if p in old(syms) then old(syms) else old(syms) + [p]
    {
      hide ListOk, TlsOk, IdentsOk, TlsPlaced;
      MemberIffLinked(p);
      if p.symsNext == null && symsTail != p {
        symsTail.symsNext := p;
        symsTail := p;
        syms := syms + [p];
      }
    }

    /** `revert_syms`: the chain is cut after `oldTail`, and every link beyond is cleared. */
    method RevertSyms(oldTail: Dso, ghost syms0: seq<Dso>)
      requires SymsOk() && syms0 != [] && syms0 <= syms && syms0[|syms0| - 1] == oldTail
      modifies this`symsTail, this`syms, list`symsNext
      ensures SymsOk() && syms == syms0
      ensures forall i :: |syms0| <= i < |old(syms)| ==> old(syms)[i].symsNext == null
    {
      ghost var n, chain := |syms0|, syms;
      ghost var k := n - 1;
      var p: Dso? := oldTail;
      while p != null
        invariant n - 1 <= k <= |chain| && (k == n - 1 ==> p != null)
        invariant p == if k < |chain| then chain[k] else null
        invariant forall i :: 0 <= i < |chain| ==>
                    chain[i].symsNext == if n - 1 <= i < k then null else old(chain[i].symsNext)
        invariant forall d :: d in list && d !in chain ==> d.symsNext == null
        decreases |chain| - k
      {
        var next := p.symsNext;
        p.symsNext := null;
        p := next;
        k := k + 1;
      }
      symsTail := oldTail;
      syms := syms0;
      assert syms0 == chain[..n];
      forall d | d in list && d !in syms ensures d.symsNext == null {
        if d in chain {
          var i := BeyondPrefix(chain, n, d);
        }
      }
    }

    // -------------------------------------------------------------- loading one library

    /** Nothing but the fields named changed between the two states. */
    twostate predicate Appended(p: Dso)
      reads *
    {
      && list == old(list) + [p] && head == old(head) && tail == p
      && (forall d :: d in old(list) ==> d.prev == old(d.prev) && d.symsNext == old(d.symsNext))
      && (forall d :: d in old(list) && d != old(tail) ==> d.next == old(d.next))
      && old(tail) in old(list) && old(tail).next == p && p.prev == old(tail)
      && (p != ldso && ldso !in old(list) ==>
            ldso.next == old(ldso.next) && ldso.prev == old(ldso.prev) && ldso.symsNext == old(ldso.symsNext))
    }

    twostate lemma {:induction false} AppendedList(p: Dso)
      requires old(ListOk()) && p !in old(list) && Appended(p) && p.next == null
      ensures ListOk()
    {
      var n := |old(list)|;
      forall i | 0 <= i < n ensures list[i] == old(list)[i] {}
      forall i | 0 <= i < |list| - 1 ensures list[i].next == list[i + 1] {
        if i < n - 1 {
          assert old(list)[i] != old(list)[n - 1];
          assert old(list[i].next) == old(list)[i + 1];
        }
      }
      forall i | 1 <= i < |list| ensures list[i].prev == list[i - 1] {
        if i < n {
          assert old(list[i].prev) == old(list)[i - 1];
        }
      }
    }

    twostate lemma {:induction false} AppendedSyms(p: Dso)
      requires old(SymsOk()) && p !in old(list) && Appended(p) && p.symsNext == null
      requires syms == old(syms) && symsTail == old(symsTail)
      ensures SymsOk()
    {
      forall i | 0 <= i < |syms| ensures syms[i] in old(list) && syms[i] in list {}
    }

    twostate lemma {:induction false} AppendedIdents(p: Dso)
      requires old(IdentsOk()) && p !in old(list) && Appended(p) && |old(list)| > 0
      requires p.fromFile ==>
                 forall i :: 0 <= i < |old(list)| && old(list)[i].fromFile ==> old(list)[i].ident != p.ident
      ensures IdentsOk()
    {
      assert list[0] == old(list)[0];
    }

    /** A DSO that was linked to nothing has been appended to the load list. */
    twostate lemma {:induction false} AppendedAll(p: Dso)
      requires old(ListOk() && SymsOk() && IdentsOk()) && p !in old(list) && Appended(p) && |old(list)| > 0
      requires p.next == null && p.symsNext == null && syms == old(syms) && symsTail == old(symsTail)
      requires p.fromFile ==>
                 forall i :: 0 <= i < |old(list)| && old(list)[i].fromFile ==> old(list)[i].ident != p.ident
      ensures ListOk() && SymsOk() && IdentsOk()
    {
      hide ListOk, SymsOk, IdentsOk, Appended;
      AppendedList(p);
      AppendedSyms(p);
      AppendedIdents(p);
    }

    /** The module list is as it was while the load list grew. */
    twostate lemma {:induction false} TlsSame(p: Dso)
      requires old(TlsOk()) && p !in old(list) && list == old(list) + [p]
      requires forall d :: d in old(list) ==> d.tlsId == old(d.tlsId) && d.tlsNext == old(d.tlsNext)
      requires tls == old(tls) && tlsTail == old(tlsTail) && tlsHead == old(tlsHead) && tlsCnt == old(tlsCnt)
      ensures TlsOk()
    {
      forall i | 0 <= i < |tls| ensures tls[i] in old(list) {}
    }

    twostate lemma {:induction false} TlsGrew(p: Dso)
      requires old(TlsOk()) && p !in old(list) && list == old(list) + [p]
      requires forall d :: d in old(list) ==> d.tlsId == old(d.tlsId)
      requires forall d :: d in old(list) && d != old(tlsTail) ==> d.tlsNext == old(d.tlsNext)
      requires tls == old(tls) + [p] && tlsTail == p && p.tlsNext == null
      requires p.tlsId == tlsCnt == old(tlsCnt) + 1
      requires old(tlsTail) == null ==> tlsHead == p
      requires old(tlsTail) != null ==> tlsHead == old(tlsHead) && old(tlsTail).tlsNext == p
      ensures TlsOk()
    {
      var n := |old(tls)|;
      forall i | 0 <= i < n ensures tls[i] in old(list) && tls[i] == old(tls)[i] {}
      forall i | 0 <= i < |tls| - 1 ensures tls[i].tlsNext == tls[i + 1] {
        if i < n - 1 {
          assert old(tls)[i] != old(tls)[n - 1];
          assert old(tls[i].tlsNext) == old(tls)[i + 1];
        }
      }
    }

    /** A DSO is linked behind the tail of the load list and becomes the tail. */
    method LinkList(p: Dso)
      requires tail in list && p !in list
      modifies this`tail, this`list, tail`next, p`prev
      ensures list == old(list) + [p] && tail == p
      ensures old(tail).next == p && p.prev == old(tail)
    {
      tail.next := p;
      p.prev := tail;
      tail := p;
      list := list + [p];
    }

    /** The identifier, the offset and the place on the module list of a new DSO with TLS. */
    method LinkTls(p: Dso)
      requires (tlsTail != null ==> tlsTail in list) && p !in list && p.tlsNext == null && p.tls.Some?
      modifies this`tlsCnt, this`tlsOffset, this`tlsAlign, this`tlsHead, this`tlsTail, this`tls
      modifies list`tlsNext, p`tlsId, p`tlsOffset
      ensures tls == old(tls) + [p] && tlsTail == p && p.tlsId == tlsCnt == old(tlsCnt) + 1
      ensures tlsHead == (if old(tlsTail) != null then old(tlsHead) else p)
      ensures old(tlsTail) != null ==> old(tlsTail).tlsNext == p
      ensures forall d :: d in list && d != old(tlsTail) ==> d.tlsNext == old(d.tlsNext)
      ensures tlsOffset == p.tlsOffset == NextOffset(old(tlsOffset), p.tls.value)
      ensures tlsAlign == MaxP2(old(tlsAlign), p.tls.value.align)
    {
      hide NextOffset, MaxP2;
      tlsCnt := tlsCnt + 1;
      p.tlsId := tlsCnt;
      tlsAlign := MaxP2(tlsAlign, p.tls.value.align);
      tlsOffset := NextOffset(tlsOffset, p.tls.value);
      p.tlsOffset := tlsOffset;
      if tlsTail != null {
        tlsTail.tlsNext := p;
      } else {
        tlsHead := p;
      }
      tlsTail := p;
      tls := tls + [p];
    }

    /** The new module's offset goes with the modules before it. */
    twostate lemma {:induction false} PlacedGrew(p: Dso)
      requires old(TlsPlaced()) && p != head && head == old(head) && p.tls.Some?
      requires tls == old(tls) + [p]
      requires forall i :: 0 <= i < |old(tls)| ==> old(tls)[i].tlsOffset == old(tls[i].tlsOffset)
      requires tlsOffset == p.tlsOffset == NextOffset(old(tlsOffset), p.tls.value)
      requires tlsAlign == MaxP2(old(tlsAlign), p.tls.value.align)
      ensures TlsPlaced()
    {
      hide NextOffset, FirstOffset, MaxP2, StateAt, Modules;
      var before := old(tls);
      ModulesSame(before);
      ModulesNext(before, p);
      StateNext(minAlign, Modules(before), TlsModule(p.tls.value, p.tlsOffset));
      LastOffset(minAlign, Modules(before));
      if before != [] {
        ModuleAt(before, |before| - 1);
      }
      forall i | 0 <= i < |tls| ensures tls[i].tls.Some? && tls[i].tlsOffset == OffsetOf(i) {
        if i < |before| {
          assert tls[i] == before[i] && before[i].tlsOffset == old(OffsetOf(i));
        }
      }
    }

    /** A new DSO joins the lists, with an identifier and an offset if it has TLS. */
    method Install(p: Dso)
      requires Valid() && p !in list && p !in tls && Unlinked(p) && p != ldso
      requires p.fromFile ==> forall i :: 0 <= i < |list| && list[i].fromFile ==> list[i].ident != p.ident
      modifies this`tlsCnt, this`tlsOffset, this`tlsAlign, this`tlsHead, this`tlsTail, this`tls, this`tail, this`list
      modifies list`tlsNext, p`tlsId, p`tlsOffset, tail`next, p`prev
      ensures Valid() && list == old(list) + [p]
      ensures tls == if p.tls.Some? then old(tls) + [p] else old(tls)
      ensures tlsOffset == (if p.tls.Some? then NextOffset(old(tlsOffset), p.tls.value) else old(tlsOffset))
      ensures p.tls.Some? ==> p.tlsOffset == tlsOffset
      ensures tlsAlign == (if p.tls.Some? then MaxP2(old(tlsAlign), p.tls.value.align) else old(tlsAlign))
    {
      hide ListOk, SymsOk, IdentsOk, TlsOk, TlsPlaced, NextOffset, MaxP2, Distinct;
      Tails();
      if p.tls.Some? {
        LinkTls(p);
        PlacedGrew(p);
      }
      LinkList(p);
      if p.tls.Some? {
        TlsGrew(p);
      } else {
        TlsSame(p);
      }
      AppendedAll(p);
    }

    /** The linker itself joins the list when first asked for. */
    method AppendSelf()
      requires Valid() && ldso !in list
      modifies this`tail, this`list, tail`next, ldso`prev
      ensures Valid() && list == old(list) + [ldso]
    {
      hide ListOk, SymsOk, IdentsOk, TlsOk, TlsPlaced;
      Tails();
      SelfUnlinked();
      LinkList(ldso);
      AppendedAll(ldso);
      TlsSame(ldso);
    }

    lemma {:induction false} Tails()
      requires Valid()
      ensures |list| > 0 && tail in list && head in list && (tlsTail != null ==> tlsTail in list) && !ldso.fromFile
    {}

    lemma {:induction false} SelfUnlinked()
      requires Valid() && ldso !in list
      ensures ldso.symsNext == null && ldso.next == null
    {}

    /** The DSO after the head that has this short name. */
    method FindShortname(name: string) returns (p: Dso?)
      requires Valid()
      ensures p != null ==> p in list && p.shortname == Some(name)
      ensures p == null ==> forall k :: 1 <= k < |list| ==> list[k].shortname != Some(name)
    {
      ghost var i := 1;
      p := head.next;
      while p != null
        invariant 1 <= i <= |list| && p == if i < |list| then list[i] else null
        invariant forall k :: 1 <= k < i ==> list[k].shortname != Some(name)
        decreases |list| - i
      {
        if p.shortname == Some(name) {
          return;
        }
        p := p.next;
        i := i + 1;
      }
    }

    /** The DSO after the head that is this file. */
    method FindIdent(ident: Ident) returns (p: Dso?)
      requires Valid()
      ensures p != null ==> p in list && p.ident == ident
      ensures p == null ==> forall k :: 1 <= k < |list| ==> list[k].ident != ident
    {
      ghost var i := 1;
      p := head.next;
      while p != null
        invariant 1 <= i <= |list| && p == if i < |list| then list[i] else null
        invariant forall k :: 1 <= k < i ==> list[k].ident != ident
        decreases |list| - i
      {
        if p.ident == ident {
          return;
        }
        p := p.next;
        i := i + 1;
      }
    }

    /** The request for the implementation itself, which is already mapped. */
    method LoadSelf() returns (p: Dso)
      requires Valid()
      modifies this`tail, this`list, tail`next, ldso`prev
      ensures Valid() && p == ldso && list == if ldso in old(list) then old(list) else old(list) + [ldso]
    {
      hide SymsOk, TlsOk, IdentsOk, TlsPlaced;
      if ldso.prev == null {
        AppendSelf();
      }
      p := ldso;
    }

    predicate IsSelf(name: string) {
      IsReserved(name) || name == ldso.name
    }

    /** The file that the name leads to is the one `d` came from, or a second libc instead of which the
        linker is used. */
    predicate IsFileOf(f: Option<File>, d: Dso) {
      f.Some? && (d.ident == f.value.ident || (f.value.isLibc && d == ldso))
    }

    /** `d` is what a request for `name` is entitled to. */
    ghost predicate Answers(fs: FileSystem, name: string, requester: string, d: Dso)
      reads d`shortname
    {
      || (IsSelf(name) && d == ldso)
      || ('/' !in name && d.shortname == Some(name))
      || IsFileOf(Lookup(fs, name, requester), d)
    }

    twostate predicate NewDso(new d: Dso)
      reads d
    {
      fresh(d) && d.fromFile && !d.relocated && d.deps == None && d.lazyNext == null
    }

    /** What loading never does: drop or reorder DSOs, or take back a short name. */
    twostate predicate Grew()
      reads *
    {
      && old(list) <= list && old(tls) <= tls && syms == old(syms) && symsTail == old(symsTail)
      && head == old(head) && lazyHead == old(lazyHead)
      && (forall i :: |old(list)| <= i < |list| && list[i] != ldso ==> NewDso(list[i]))
      && (forall d :: d in old(list) && old(d.shortname).Some? ==> d.shortname == old(d.shortname))
    }

    /** The DSO that has just been appended is the file, with a place on the module list if it has TLS. */
    twostate predicate NewFrom(f: File, searched: bool, new p: Dso)
      reads *
    {
      && list == old(list) + [p] && fresh(p) && MadeFrom(p, f)
      && p.shortname == (if searched then Some(BaseName(f.path)) else None)
      && tls == (if f.tls.Some? then old(tls) + [p] else old(tls))
      && tlsOffset == (if f.tls.Some? then NextOffset(old(tlsOffset), f.tls.value) else old(tlsOffset))
      && tlsAlign == (if f.tls.Some? then MaxP2(old(tlsAlign), f.tls.value.align) else old(tlsAlign))
      && (f.tls.Some? ==> p.tlsOffset == tlsOffset)
      && (forall i :: 1 <= i < |old(list)| ==> old(list)[i].ident != p.ident)
    }

    /** At most the answer to a request joined the list, made from the file the request leads to. */
    twostate predicate Gained(fs: FileSystem, w: Want, new p: Dso?)
      reads this`list
    {
      list == old(list) || (p != null && list == old(list) + [p] && (p == ldso || MadeFor(fs, w, p)))
    }

    /** The DSO was there and was an answer to the request already, or was made from the file it leads to. */
    twostate predicate LedTo(fs: FileSystem, w: Want, new p: Dso)
      reads {}
    {
      if p in old(list) then old(Answers(fs, w.name, w.requester, p)) else MadeFor(fs, w, p)
    }

    /** From position `n` on there are only DSOs made from these files, and perhaps the linker. */
    ghost predicate MadeOf(fs: FileSystem, s: seq<Dso>, n: nat) {
      forall i :: n <= i < |s| ==> s[i] == ldso || IsOfFiles(fs, s[i])
    }

    /** From position `n` on there are only DSOs that were found. */
    static ghost predicate AllFound(s: seq<Dso>, n: nat, found: seq<Dso>) {
      forall i :: n <= i < |s| ==> s[i] in found
    }

    /** The same, with `p` itself. */
    static ghost predicate ItOrFound(s: seq<Dso>, n: nat, p: Dso, found: seq<Dso>) {
      forall i :: n <= i < |s| ==> s[i] == p || s[i] in found
    }

    twostate predicate TlsUnchanged()
      reads this
    {
      tls == old(tls) && tlsOffset == old(tlsOffset) && tlsAlign == old(tlsAlign)
    }

    twostate predicate SelfAdded()
      reads this
    {
      ldso !in old(list) && list == old(list) + [ldso]
    }

    /** With nothing failing and everything allowed to be loaded, only these requests cannot be met. */
    predicate Unfindable(fs: FileSystem, w: Want) {
      w.name == "" || (!IsSelf(w.name) && Lookup(fs, w.name, w.requester).None?)
    }

    /** A file that no DSO on the list came from becomes a new DSO. */
    method LoadNew(f: File, searched: bool) returns (p: Dso)
      requires Valid() && forall k :: 1 <= k < |list| ==> list[k].ident != f.ident
      modifies this`tlsCnt, this`tlsOffset, this`tlsAlign, this`tlsHead, this`tlsTail, this`tls, this`tail, this`list
      modifies list`tlsNext, tail`next
      ensures Valid() && Grew() && NewFrom(f, searched, p)
    {
      hide ListOk, SymsOk, TlsOk, IdentsOk, TlsPlaced, NextOffset, MaxP2, BaseName;
      Tails();
      HeadIsNoFile();
      p := new Dso(f, if searched then Some(BaseName(f.path)) else None);
      Install(p);
    }

    /** A DSO after the head came from this file. */
    static predicate IsLoaded(list: seq<Dso>, ident: Ident) {
      exists k :: 1 <= k < |list| && list[k].ident == ident
    }

    /** A DSO after the head has this short name. */
    ghost predicate HasShortname(name: string)
      reads this`list, list`shortname
    {
      exists k :: 1 <= k < |list| && list[k].shortname == Some(name)
    }

    /** The part of `load_library` that follows the search: the same file under another name, a second
        libc, or a new library. */
    method LoadFile(f: File, searched: bool, noload: bool) returns (p: Dso?)
      requires Valid()
      modifies this, list`tlsNext, list`next, list`shortname, ldso`prev
      ensures Valid() && Grew()
      ensures p != null ==> p in list && (p.ident == f.ident || (f.isLibc && p == ldso))
      ensures IsLoaded(old(list), f.ident) || noload || p == null ==> list == old(list)
      ensures IsLoaded(old(list), f.ident) ==> p != null && p.ident == f.ident && p in old(list)
      ensures IsLoaded(old(list), f.ident) ==>
                p.shortname == if searched && old(p.shortname) == None then Some(BaseName(p.name)) else old(p.shortname)
      ensures forall d :: d in old(list) && d.shortname != old(d.shortname) ==> d == p && p.ident == f.ident
      ensures p == null ==> !calm || noload
      ensures list != old(list) && p != ldso ==> NewFrom(f, searched, p)
      ensures list == old(list) || p == ldso ==> TlsUnchanged() && (list == old(list) || SelfAdded())
    {
      hide ListOk, SymsOk, TlsOk, IdentsOk, TlsPlaced, BaseName, NextOffset, MaxP2;
      Tails();
      p := FindIdent(f.ident);
      if p != null {
        if p.shortname.None? && searched {
          p.shortname := Some(BaseName(p.name));
        }
        return;
      }
      if noload {
        return null;
      }
      var mapped := Granted();
      if !mapped {
        return null;
      }
      if f.isLibc {
        p := LoadSelf();
        return;
      }
      var memory := Granted();
      if !memory {
        return null;
      }
      p := LoadNew(f, searched);
    }

    /** `load_library`.  Mapping and allocation may fail at any time. */
    method LoadLibrary(fs: FileSystem, name: string, requester: string, noload: bool) returns (p: Dso?)
      requires Valid()
      modifies this, list`tlsNext, list`next, list`shortname, ldso`prev
      ensures Valid() && Grew()
      ensures p != null ==> p in list && Answers(fs, name, requester, p)
      ensures p != null && p in old(list) ==> old(Answers(fs, name, requester, p))
      ensures name == "" ==> p == null
      ensures name != "" && IsSelf(name) ==> p == ldso
      ensures p == null || (noload && !IsSelf(name)) ==> list == old(list)
      ensures name != "" && !IsSelf(name) && '/' !in name && old(HasShortname(name)) ==>
                list == old(list) && p != null && p.shortname == Some(name)
      ensures '/' !in name && |name| > NAME_MAX && p != null ==> IsSelf(name) || p.shortname == Some(name)
      ensures p == null && calm && !noload ==> Unfindable(fs, Want(name, requester))
      ensures list != old(list) && p != ldso ==>
                Lookup(fs, name, requester).Some? && NewFrom(Lookup(fs, name, requester).value, '/' !in name, p)
      ensures list == old(list) || p == ldso ==> TlsUnchanged() && (list == old(list) || SelfAdded())
    {
      hide ListOk, SymsOk, TlsOk, IdentsOk, TlsPlaced, IsReserved, Idents, Lookup, BaseName, NextOffset, MaxP2;
      Tails();
      if name == "" {
        return null;
      }
      if IsSelf(name) {
        p := LoadSelf();
        return;
      }
      var searched := '/' !in name;
      if searched {
        p := FindShortname(name);
        if p != null {
          return;
        }
        if |name| > NAME_MAX {
          return null;
        }
      }
      var found := Lookup(fs, name, requester);
      if found.None? {
        return null;
      }
      p := LoadFile(found.value, searched, noload);
    }

    lemma {:induction false} HeadIsNoFile()
      requires Valid()
      ensures !list[0].fromFile && forall d :: d in tls ==> d in list
    {}

    // -------------------------------------------------------------- loading dependencies

    /** The DSOs found are what the requests, one by one, are entitled to. */
    ghost predicate Answered(fs: FileSystem, wants: seq<Want>, found: seq<Dso>)
      reads found`shortname
    {
      |wants| == |found| && forall i :: 0 <= i < |wants| ==> Answers(fs, wants[i].name, wants[i].requester, found[i])
    }

    /** An answer stays an answer while the list grows. */
    twostate lemma {:induction false} StaysAnswered(s: (FileSystem, seq<Dso>))
      requires Grew() && forall d :: d in s.1 ==> d in old(list)
      ensures forall wants: seq<Want> :: old(Answered(s.0, wants, s.1)) ==> Answered(s.0, wants, s.1)
    {
      hide IsSelf, Lookup;
      var fs, found := s.0, s.1;
      forall wants: seq<Want> | old(Answered(fs, wants, found)) ensures Answered(fs, wants, found) {
        forall i | 0 <= i < |wants| ensures Answers(fs, wants[i].name, wants[i].requester, found[i]) {
          assert old(Answers(fs, wants[i].name, wants[i].requester, found[i]));
          assert found[i] in old(list);
        }
      }
    }

    lemma {:induction false} OneMoreAnswered(fs: FileSystem, wants: seq<Want>, found: seq<Dso>, q: Dso, m: nat, d: Dso)
      requires m < |q.needed| && Answered(fs, wants + Wants(q, m), found) && Answers(fs, q.needed[m], q.name, d)
      ensures Answered(fs, wants + Wants(q, m + 1), found + [d])
    {
      hide Answers;
      assert wants + Wants(q, m + 1) == wants + Wants(q, m) + [Want(q.needed[m], q.name)];
    }

    /** Whatever joined the list, there is less left to load. */
    twostate predicate Progress(fs: FileSystem)
      reads this
    {
      || (list == old(list))
      || Unloaded(Idents(fs), list, ldso) < Unloaded(Idents(fs), old(list), ldso)
    }

    twostate lemma {:induction false} IsNewFrom(new a: (File, bool, Dso))
      requires NewFrom(a.0, a.1, a.2)
      ensures list == old(list) + [a.2] && MadeFrom(a.2, a.0)
    {}

    twostate lemma {:induction false} Progresses(new a: (FileSystem, File, bool, Dso))
      requires old(|list|) > 0 && (NewFrom(a.1, a.2, a.3) || SelfAdded()) && a.1.ident in Idents(a.0)
      ensures Progress(a.0)
    {
      hide Idents, Unloaded, NextOffset, MaxP2, BaseName;
      var p := if SelfAdded() then ldso else a.3;
      UnloadedShrinks(Idents(a.0), old(list), list, ldso, p);
    }

    function Recorded(found: seq<Dso>): Option<seq<Dso>> {
      if found == [] then None else Some(found)
    }

    lemma {:induction false} GainedOne(fs: FileSystem, w: Want, was: seq<Dso>, now: seq<Dso>, n: nat, p: Dso?,
                                       found: seq<Dso>)
      requires n <= |was| && MadeOf(fs, was, n)
      requires now == was || (p != null && now == was + [p] && (p == ldso || MadeFor(fs, w, p)))
      ensures MadeOf(fs, now, n)
      ensures AllFound(was, n, found) ==> AllFound(now, n, if p != null then found + [p] else found)
      ensures p != null && n == |was| ==> ItOrFound(now, n, p, [])
    {
      hide MadeFor;
    }

    /** `load_library` for a dependency: it leaves less to load, if it loads anything. */
    method LoadDependency(fs: FileSystem, name: string, requester: string, noload: bool) returns (dep: Dso?)
      requires Valid()
      modifies this, list`tlsNext, list`next, list`shortname, ldso`prev
      ensures Valid() && Grew() && Progress(fs)
      ensures Gained(fs, Want(name, requester), dep)
      ensures dep != null ==> dep in list && Answers(fs, name, requester, dep)
      ensures dep == null && calm && !noload ==> Unfindable(fs, Want(name, requester))
    {
      hide ListOk, SymsOk, TlsOk, IdentsOk, TlsPlaced, Answers, Idents, Unloaded, IsSelf, Lookup, NewFrom, MadeFrom;
      Tails();
      dep := LoadLibrary(fs, name, requester, noload);
      if list != old(list) {
        if dep == ldso {
          SelfShrinks(Idents(fs), old(list), ldso);
        } else {
          IsNewFrom((Lookup(fs, name, requester).value, '/' !in name, dep));
          Progresses((fs, Lookup(fs, name, requester).value, '/' !in name, dep));
        }
      }
    }

    /** One entry of `load_deps`: loads what `q` needs and at run time records it with `p`. */
    method LoadNeed(fs: FileSystem, p: Dso, q: Dso, name: string, runtime: bool, noload: bool)
      returns (dep: Dso?, ok: bool)
      requires Valid() && p in list
      modifies this, list`tlsNext, list`next, list`shortname, ldso`prev, p`deps
      ensures Valid() && Grew() && Progress(fs) && Gained(fs, Want(name, q.name), dep)
      ensures dep == null ==> ok == !runtime && p.deps == old(p.deps)
      ensures dep != null ==> dep in list && Answers(fs, name, q.name, dep)
      ensures dep != null && runtime && ok ==>
                p.deps == Some((if old(p.deps).Some? then old(p.deps).value else []) + [dep])
      ensures !runtime ==> ok && p.deps == old(p.deps)
      ensures !ok ==> p.deps == old(p.deps)
      ensures !ok && calm && !noload ==> Unfindable(fs, Want(name, q.name))
    {
      hide ListOk, SymsOk, TlsOk, IdentsOk, TlsPlaced, Answers, Idents, Unloaded, MadeFor;
      dep := LoadDependency(fs, name, q.name, noload);
      ok := !runtime;
      if dep != null && runtime {
        ok := Granted();
        if ok {
          p.deps := Some((if p.deps.Some? then p.deps.value else []) + [dep]);
        }
      }
    }

    /** The inner loop of `load_deps`: everything that `q` needs.  `found` are the DSOs found so far, which
        answer the requests made so far if none failed. */
    method LoadNeeds(fs: FileSystem, p: Dso, q: Dso, runtime: bool, noload: bool, ghost wants: seq<Want>,
                     ghost before: seq<Dso>)
      returns (ok: bool, raised: bool, ghost found: seq<Dso>, ghost at: nat)
      requires Valid() && p in list && (forall d :: d in before ==> d in list)
      requires runtime ==> p.deps == Recorded(before)
      modifies this, list`tlsNext, list`next, list`shortname, ldso`prev, p`deps
      modifies ldso`next, ldso`shortname, ldso`tlsNext
      ensures Valid() && Grew() && Progress(fs)
      ensures if runtime then ok ==> !raised else ok
      ensures before <= found && forall d :: d in found ==> d in list
      // what joined the list was made from the files, and was found, if the load goes on
      ensures MadeOf(fs, list, |old(list)|) && (ok ==> AllFound(list, |old(list)|, found))
      ensures p.deps == if runtime then Recorded(found) else old(p.deps)
      ensures !raised && ok && old(Answered(fs, wants, before)) ==> Answered(fs, wants + Wants(q, |q.needed|), found)
      // a load that is abandoned has answered everything up to the need it was abandoned at
      ensures !ok ==> at < |q.needed|
      ensures !ok && old(Answered(fs, wants, before)) ==> Answered(fs, wants + Wants(q, at), found)
      ensures !ok && calm && !noload ==> Unfindable(fs, Want(q.needed[at], q.name))
    {
      hide ListOk, SymsOk, TlsOk, IdentsOk, TlsPlaced, Answers, Idents, Unloaded, Answered, Unfindable, MadeOf,
           AllFound, MadeFor;
      ok, raised, found, at := true, false, before, 0;
      ghost var was := list;
      NothingGained(fs, list, found);
      assert wants + Wants(q, 0) == wants;
      for m := 0 to |q.needed|
        invariant Valid() && Grew() && Progress(fs) && ok && p in list
        invariant before <= found && forall d :: d in found ==> d in list
        invariant MadeOf(fs, list, |was|) && AllFound(list, |was|, found)
        invariant runtime ==> !raised && p.deps == Recorded(found)
        invariant !runtime ==> p.deps == old(p.deps)
        invariant !raised && old(Answered(fs, wants, before)) ==> Answered(fs, wants + Wants(q, m), found)
      {
        assert forall i :: 0 <= i < |list| ==> list[i] in old(list) || list[i] == ldso || fresh(list[i]);
        ghost var had := list;
        label L:
        var dep;
        dep, ok := LoadNeed(fs, p, q, q.needed[m], runtime, noload);
        StaysAnswered@L((fs, found));
        GainedOne(fs, Want(q.needed[m], q.name), had, list, |was|, dep, found);
        if dep == null {
          raised := true;
        } else if ok {
          if !raised && old(Answered(fs, wants, before)) {
            OneMoreAnswered(fs, wants, found, q, m, dep);
          }
          found := found + [dep];
        }
        if !ok {
          at := m;
          return;
        }
      }
    }

    /** Everything wanted up to some point has been answered, in order; where that is not the end, and
        nothing else failed, the next request could not be met. */
    ghost predicate AnsweredSoFar(fs: FileSystem, wants: seq<Want>, found: seq<Dso>, noload: bool)
      reads found`shortname
    {
      && |found| <= |wants| && Answered(fs, wants[..|found|], found)
      && (calm && !noload && |found| < |wants| ==> Unfindable(fs, wants[|found|]))
    }

    /** One round of `load_deps`: the DSO `q` at position `i` of the list, and the DSO after it. */
    method LoadRound(fs: FileSystem, p: Dso, q: Dso, runtime: bool, noload: bool, wasRaised: bool, ghost k: nat,
                     ghost i: nat, ghost before: seq<Dso>)
      returns (ok: bool, raised: bool, next: Dso?, ghost found: seq<Dso>)
      requires Valid() && p in list && k <= i < |list| && list[i] == q && forall d :: d in before ==> d in list
      requires runtime ==> p.deps == Recorded(before) && !wasRaised
      requires !wasRaised ==> Answered(fs, AllWants(list[k..i]), before)
      modifies this, list`tlsNext, list`next, list`shortname, ldso`prev, p`deps
      modifies ldso`next, ldso`shortname, ldso`tlsNext
      ensures Valid() && Grew() && Progress(fs) && i < |list|
      ensures if runtime then ok ==> !raised else ok
      ensures before <= found && forall d :: d in found ==> d in list
      ensures MadeOf(fs, list, |old(list)|) && (ok ==> AllFound(list, |old(list)|, found))
      ensures p.deps == if runtime then Recorded(found) else old(p.deps)
      ensures next == if i + 1 < |list| then list[i + 1] else null
      ensures ok && !raised ==> Answered(fs, AllWants(list[k..i + 1]), found)
      ensures !ok ==> AnsweredSoFar(fs, AllWants(list[k..]), found, noload)
    {
      hide ListOk, SymsOk, TlsOk, IdentsOk, TlsPlaced, Answers, Idents, Unloaded, Answered, AllWants, AnsweredSoFar,
           Unfindable, MadeOf, AllFound;
      ghost var was, wants := list, AllWants(list[k..i]);
      ghost var at;
      ok, raised, found, at := LoadNeeds(fs, p, q, runtime, noload, wants, before);
      if ok {
        raised := raised || wasRaised;
        MoreWanted(was, list, k, i);
      } else {
        StoppedAt(fs, was, k, i, at, found, noload);
      }
      NextIs(i);
      next := q.next;
    }

    /** `load_deps`: walks the list from `p`, which is at position `k`, to an end that moves as libraries
        are appended, and at run time records what it finds with `p`.  Before run time an error is only
        noted; at run time it, or a failed `realloc`, abandons the load. */
    method LoadDeps(fs: FileSystem, p: Dso, ghost k: nat, runtime: bool, noload: bool)
      returns (ok: bool, raised: bool, ghost found: seq<Dso>)
      requires Valid() && k < |list| && list[k] == p && p.deps == None
      modifies this, list`tlsNext, list`next, list`shortname, ldso`prev, p`deps
      modifies ldso`next, ldso`shortname, ldso`tlsNext
      ensures Valid() && Grew()
      ensures if runtime then ok ==> !raised else ok
      ensures forall d :: d in found ==> d in list
      // every DSO that was appended was made from one of the files and, if the load went through, was found
      ensures MadeOf(fs, list, |old(list)|) && (ok ==> AllFound(list, |old(list)|, found))
      ensures p.deps == if !ok then Recorded(found) else Some(if runtime then found else [])
      // the dependencies found answer, one by one, the needs of every DSO from `p` to the end of the list
      ensures ok && !raised ==> Answered(fs, AllWants(list[k..]), found)
      // a load that is abandoned has answered everything up to the need it was abandoned at
      ensures !ok ==> AnsweredSoFar(fs, AllWants(list[k..]), found, noload)
    {
      hide ListOk, SymsOk, TlsOk, IdentsOk, TlsPlaced, Answers, Idents, Unloaded, Answered, AllWants, AnsweredSoFar,
           Unfindable, MadeOf, AllFound;
      ok, raised, found := true, false, [];
      var q: Dso? := p;
      ghost var i, was := k, list;
      NothingWanted(fs, list, k);
      NothingGained(fs, list, found);
      while q != null
        invariant Valid() && Grew() && ok && p in list
        invariant k <= i <= |list| && q == if i < |list| then list[i] else null
        invariant MadeOf(fs, list, |was|) && AllFound(list, |was|, found) && forall d :: d in found ==> d in list
        invariant if runtime then !raised && p.deps == Recorded(found) else p.deps == None
        invariant !raised ==> Answered(fs, AllWants(list[k..i]), found)
        decreases Unloaded(Idents(fs), list, ldso), |list| - i
      {
        assert forall i :: 0 <= i < |list| ==> list[i] in old(list) || list[i] == ldso || fresh(list[i]);
        ghost var had, before := list, found;
        ok, raised, q, found := LoadRound(fs, p, q, runtime, noload, raised, k, i, found);
        GainedBoth(fs, had, list, |was|, before, found);
        if !ok {
          return;
        }
        i := i + 1;
      }
      assert list[k..] == list[k..i];
      if p.deps == None {
        p.deps := Some([]);
      }
    }

    lemma {:induction false} AllAnswered(fs: FileSystem, wants: seq<Want>, found: seq<Dso>, noload: bool)
      requires Answered(fs, wants, found)
      ensures AnsweredSoFar(fs, wants, found, noload)
    {
      hide Answers;
      assert wants[..|found|] == wants;
    }

    lemma {:induction false} StoppedAt(fs: FileSystem, was: seq<Dso>, k: nat, i: nat, at: nat, found: seq<Dso>,
                                       noload: bool)
      requires was <= list && k <= i < |was| && at < |was[i].needed|
      requires Answered(fs, AllWants(was[k..i]) + Wants(was[i], at), found)
      requires calm && !noload ==> Unfindable(fs, Want(was[i].needed[at], was[i].name))
      ensures AnsweredSoFar(fs, AllWants(list[k..]), found, noload)
    {
      hide Answers, Unfindable;
      var all, q := AllWants(list[k..]), was[i];
      MoreWanted(was, list, k, i);
      WantsBegin(list[k..], i + 1 - k);
      assert list[k..][..i + 1 - k] == list[k..i + 1];
      var begun := AllWants(was[k..i]) + Wants(q, |q.needed|);
      assert begun <= all;
      assert |found| == |AllWants(was[k..i])| + at;
      assert begun[|found|] == Want(q.needed[at], q.name);
      assert all[..|found|] == begun[..|found|] == AllWants(was[k..i]) + Wants(q, at);
    }

    lemma {:induction false} NothingGained(fs: FileSystem, s: seq<Dso>, found: seq<Dso>)
      ensures MadeOf(fs, s, |s|) && AllFound(s, |s|, found) && forall p :: ItOrFound(s, |s|, p, found)
    {}

    /** What was found first and what was found then. */
    lemma {:induction false} GainedBoth(fs: FileSystem, was: seq<Dso>, now: seq<Dso>, n: nat, before: seq<Dso>,
                                        found: seq<Dso>)
      requires n <= |was| && was <= now && MadeOf(fs, was, n) && MadeOf(fs, now, |was|) && before <= found
      ensures MadeOf(fs, now, n)
      ensures AllFound(was, n, before) && AllFound(now, |was|, found) ==> AllFound(now, n, found)
    {
      hide IsOfFiles;
      forall i | n <= i < |was| ensures now[i] == was[i] {}
    }

    lemma {:induction false} NothingWanted(fs: FileSystem, list: seq<Dso>, k: nat)
      requires k <= |list|
      ensures Answered(fs, [], []) && AllWants(list[k..k]) == []
    {}

    /** With its dependencies loaded, the list is closed under DT_NEEDED from `k` on. */
    lemma {:induction false} ClosedUnderNeeded(fs: FileSystem, k: nat, j: nat, m: nat, found: seq<Dso>)
      requires k <= j < |list| && m < |list[j].needed| && Answered(fs, AllWants(list[k..]), found)
      requires forall d :: d in found ==> d in list
      ensures exists d :: d in list && d in found && Answers(fs, list[j].needed[m], list[j].name, d)
    {
      hide Answers;
      var i := WhereWanted(list[k..], j - k, m);
      assert found[i] in found;
    }

    lemma {:induction false} NextIs(i: nat)
      requires Valid() && i < |list|
      ensures list[i].next == Next(list, i, null)
    {}

    // -------------------------------------------------------------- dlopen

    /** What holds at run time between calls: everything is relocated, the linker is on the list (its
        symbols are how `dlopen` is reached), and recorded dependencies are on the list. */
    ghost predicate AtRuntime()
      reads this`list, list`relocated, list`deps
    {
      ldso in list && (forall d :: d in list ==> d.relocated) && DepsListed()
    }

    ghost predicate DepsListed()
      reads this`list, list`deps
    {
      forall d :: d in list && d.deps.Some? ==> forall e :: e in d.deps.value ==> e in list
    }

    /** The lazy list after DSOs were pushed on it one after the other: a DSO pushed twice has the link it
        was given last. */
    ghost predicate PushedOn(pushed: seq<Dso>, before: Dso?)
      reads this`lazyHead, pushed`lazyNext
    {
      && lazyHead == (if pushed == [] then before else pushed[|pushed| - 1])
      && forall i {:trigger Again(pushed, i)} :: 0 <= i < |pushed| && !Again(pushed, i) ==>
           pushed[i].lazyNext == Previous(pushed, i, before)
    }

    /** `prepare_lazy`, whose table may not be available. */
    method PrepareLazy(p: Dso, ghost before: Dso?, ghost pushed: seq<Dso>) returns (ok: bool, ghost now: seq<Dso>)
      requires PushedOn(pushed, before)
      modifies this`lazyHead, p`lazyNext
      ensures PushedOn(now, before) && now == if ok && !p.bindNow then pushed + [p] else pushed
    {
      if p.bindNow {
        return true, pushed;
      }
      ok, now := *, pushed;
      if ok {
        p.lazyNext := lazyHead;
        lazyHead := p;
        now := pushed + [p];
        forall i | 0 <= i < |now| && !Again(now, i)
          ensures now[i].lazyNext == Previous(now, i, before)
        {
          if i < |pushed| {
            assert now[i + 1..] == pushed[i + 1..] + [p];
            assert now[i] != p && !Again(pushed, i);
            assert old(pushed[i].lazyNext) == Previous(pushed, i, before);
            assert now[i].lazyNext == old(pushed[i].lazyNext);
          } else {
            assert old(lazyHead) == Previous(now, i, before);
          }
        }
        assert PushedOn(now, before);
      } else {
        assert PushedOn(pushed, before);
      }
    }

    /** `reloc_all`, which an unresolved symbol or a failed `mprotect` may end.  It leaves any number of
        entries for later. */
    method RelocAll(p: Dso, ghost k: nat) returns (ok: bool)
      requires Valid() && k < |list| && list[k] == p
      modifies list`relocated, (set d | d in list && !d.relocated)`pending
      ensures Valid() && forall d :: d in list && old(d.relocated) ==> d.relocated
      ensures ok ==> forall j :: k <= j < |list| ==> list[j].relocated
    {
      hide SymsOk, TlsOk, IdentsOk, ListOk, TlsPlaced;
      var q: Dso? := p;
      ghost var i := k;
      while q != null
        invariant Valid() && k <= i <= |list| && q == if i < |list| then list[i] else null
        invariant forall d :: d in list && old(d.relocated) ==> d.relocated
        invariant forall j :: k <= j < i ==> list[j].relocated
        decreases |list| - i
      {
        if !q.relocated {
          ok := *;
          if !ok {
            return;
          }
          var entries: nat := *;
          q.pending, q.relocated := entries, true;
        }
        NextIs(i);
        q := q.next;
        i := i + 1;
      }
      ok := true;
    }

    /** The walk of the cleanup, which frees every DSO after the old tail. */
    method FreeAfter(origTail: Dso, ghost list0: seq<Dso>) returns (ghost freed: seq<Dso>)
      requires Valid() && list0 != [] && list0 <= list && list0[|list0| - 1] == origTail
      ensures list == list0 + freed
    {
      hide ListOk, SymsOk, TlsOk, IdentsOk, TlsPlaced;
      ghost var n := |list0|;
      freed := [];
      NextIs(n - 1);
      var p := origTail.next;
      while p != null
        invariant n + |freed| <= |list| && freed == list[n..n + |freed|]
        invariant p == if n + |freed| < |list| then list[n + |freed|] else null
        decreases |list| - |freed|
      {
        NextIs(n + |freed|);
        var next := p.next;
        freed := freed + [p];
        p := next;
      }
    }

    /** The module list is cut back to the modules it had. */
    method RevertTls(origTlsTail: Dso?, origTlsCnt: nat, origTlsOffset: word, origTlsAlign: word,
                     ghost tls0: seq<Dso>)
      requires TlsOk() && tls0 <= tls && origTlsCnt == |tls0| && (origTlsTail != null ==> origTlsTail in list)
      requires origTlsTail == if tls0 == [] then null else tls0[|tls0| - 1]
      requires TlsPlaced() && (forall i :: 0 <= i < |tls0| ==> tls0[i].tls.Some?)
      requires GiveRise(tls0, origTlsOffset, origTlsAlign)
      modifies this`tlsHead, this`tlsTail, this`tlsCnt, this`tlsOffset, this`tlsAlign, this`tls, list`tlsNext
      ensures TlsOk() && TlsPlaced() && tls == tls0 && tlsOffset == origTlsOffset && tlsAlign == origTlsAlign
    {
      hide TlsOk, TlsPlaced, GiveRise;
      if origTlsTail == null {
        tlsHead := null;
      }
      tlsTail := origTlsTail;
      if tlsTail != null {
        tlsTail.tlsNext := null;
      }
      tlsCnt, tlsOffset, tlsAlign := origTlsCnt, origTlsOffset, origTlsAlign;
      tls := tls0;
      TlsCut();
      PlacedCut();
    }

    /** The modules at the front have the offsets that go with the modules before them. */
    twostate lemma {:induction false} PlacedCut()
      requires old(TlsPlaced()) && tls <= old(tls) && head == old(head)
      requires forall i :: 0 <= i < |tls| ==> tls[i].tls.Some? && tls[i].tlsOffset == old(tls[i].tlsOffset)
      requires GiveRise(tls, tlsOffset, tlsAlign)
      ensures TlsPlaced()
    {
      hide NextOffset, FirstOffset, GiveRise;
      forall i | 0 <= i < |tls| ensures tls[i].tlsOffset == OffsetOf(i) {
        assert tls[i] == old(tls)[i] && old(tls)[i].tlsOffset == old(OffsetOf(i));
      }
    }

    /** The load list is cut back to the DSOs it had. */
    method RevertList(origTail: Dso, ghost list0: seq<Dso>)
      requires Valid() && list0 != [] && list0 <= list && list0[|list0| - 1] == origTail && ldso in list0
      requires forall d :: d in syms || d in tls ==> d in list0
      modifies this`tail, this`list, list`next
      ensures Valid() && list == list0
    {
      hide ListOk, SymsOk, TlsOk, IdentsOk, TlsPlaced;
      tail := origTail;
      tail.next := null;
      list := list0;
      ListCut();
      OthersCut();
    }

    /** What `dlopen` does after a `longjmp`: every list is cut back to what it was. */
    method Cleanup(origTail: Dso, origSymsTail: Dso, origTlsTail: Dso?, origTlsCnt: nat, origTlsOffset: word,
                   origTlsAlign: word, origLazyHead: Dso?, ghost list0: seq<Dso>, ghost syms0: seq<Dso>,
                   ghost tls0: seq<Dso>)
      returns (ghost freed: seq<Dso>)
      requires Valid() && list0 <= list && syms0 <= syms && tls0 <= tls && ldso in list0
      requires CanCutTo(origTail, origSymsTail, origTlsTail, origTlsCnt, origTlsOffset, origTlsAlign, list0, syms0,
                        tls0)
      modifies this`symsTail, this`syms, this`tlsHead, this`tlsTail, this`tlsCnt, this`tlsOffset, this`tlsAlign
      modifies this`tls, this`lazyHead, this`tail, this`list, list`symsNext, list`next, list`tlsNext
      ensures Valid() && list == list0 && syms == syms0 && tls == tls0
      ensures tlsOffset == origTlsOffset && tlsAlign == origTlsAlign && lazyHead == origLazyHead
      ensures old(list) == list0 + freed
    {
      hide ListOk, SymsOk, TlsOk, IdentsOk, TlsPlaced, GiveRise;
      RevertSyms(origSymsTail, syms0);
      freed := FreeAfter(origTail, list0);
      RevertRest(origTail, origTlsTail, origTlsCnt, origTlsOffset, origTlsAlign, origLazyHead, list0, tls0);
    }

    /** The lists that go with the tails, the count and the offsets that `dlopen` saved. */
    ghost predicate CanCutTo(origTail: Dso, origSymsTail: Dso, origTlsTail: Dso?, origTlsCnt: nat, origTlsOffset: word,
                             origTlsAlign: word, list0: seq<Dso>, syms0: seq<Dso>, tls0: seq<Dso>)
      reads tls0`tlsOffset
    {
      && |list0| > 0 && list0[|list0| - 1] == origTail && |syms0| > 0 && syms0[|syms0| - 1] == origSymsTail
      && origTlsCnt == |tls0| && origTlsTail == (if tls0 == [] then null else tls0[|tls0| - 1])
      && (forall d :: d in syms0 ==> d in list0) && (forall d :: d in tls0 ==> d in list0)
      && (forall i :: 0 <= i < |tls0| ==> tls0[i].tls.Some?) && GiveRise(tls0, origTlsOffset, origTlsAlign)
    }

    /** The cleanup after the walk: the TLS list, the lazy list and the load list. */
    method RevertRest(origTail: Dso, origTlsTail: Dso?, origTlsCnt: nat, origTlsOffset: word, origTlsAlign: word,
                      origLazyHead: Dso?, ghost list0: seq<Dso>, ghost tls0: seq<Dso>)
      requires Valid() && list0 != [] && list0 <= list && list0[|list0| - 1] == origTail && ldso in list0
      requires tls0 <= tls && origTlsCnt == |tls0| && origTlsTail == if tls0 == [] then null else tls0[|tls0| - 1]
      requires (forall d :: d in syms ==> d in list0) && (forall d :: d in tls0 ==> d in list0)
      requires origTlsTail != null ==> origTlsTail in list
      requires (forall i :: 0 <= i < |tls0| ==> tls0[i].tls.Some?) && GiveRise(tls0, origTlsOffset, origTlsAlign)
      modifies this`tlsHead, this`tlsTail, this`tlsCnt, this`tlsOffset, this`tlsAlign, this`tls, this`lazyHead
      modifies this`tail, this`list, list`next, list`tlsNext
      ensures Valid() && list == list0 && tls == tls0
      ensures tlsOffset == origTlsOffset && tlsAlign == origTlsAlign && lazyHead == origLazyHead
    {
      hide ListOk, SymsOk, TlsOk, IdentsOk, TlsPlaced, GiveRise;
      RevertTls(origTlsTail, origTlsCnt, origTlsOffset, origTlsAlign, tls0);
      lazyHead := origLazyHead;
      RevertList(origTail, list0);
    }

    twostate lemma {:induction false} ListCut()
      requires old(ListOk()) && old(IdentsOk()) && list != [] && list <= old(list)
      requires tail == list[|list| - 1] && head == old(head) && tail.next == null
      requires forall d :: d in list ==> d.prev == old(d.prev) && (d != tail ==> d.next == old(d.next))
      requires ldso in list
      ensures ListOk() && IdentsOk()
    {
      forall i | 0 <= i < |list| ensures list[i] == old(list)[i] && (i < |list| - 1 ==> list[i] != tail) {}
      assert ldso in old(list);
    }

    twostate lemma {:induction false} OthersCut()
      requires old(SymsOk()) && old(TlsOk()) && list <= old(list) && ldso in list
      requires syms == old(syms) && symsTail == old(symsTail) && head == old(head)
      requires tls == old(tls) && tlsHead == old(tlsHead) && tlsTail == old(tlsTail) && tlsCnt == old(tlsCnt)
      requires forall d :: d in syms || d in tls ==> d in list
      requires forall d :: d in old(list) ==>
                 d.symsNext == old(d.symsNext) && d.tlsNext == old(d.tlsNext) && d.tlsId == old(d.tlsId)
      ensures SymsOk() && TlsOk()
    {}

    twostate lemma {:induction false} TlsCut()
      requires old(TlsOk()) && list == old(list) && tls <= old(tls) && tlsCnt == |tls|
      requires forall d :: d in list ==> d.tlsId == old(d.tlsId) && (d != tlsTail ==> d.tlsNext == old(d.tlsNext))
      requires tlsTail == if tlsCnt == 0 then null else tls[tlsCnt - 1]
      requires tlsTail != null ==> tlsTail.tlsNext == null
      requires tlsHead == if tlsCnt == 0 then null else old(tlsHead)
      ensures TlsOk()
    {
      forall i | 0 <= i < tlsCnt ensures tls[i] == old(tls)[i] && (i < tlsCnt - 1 ==> tls[i] != tlsTail) {}
    }

    /** Everything done so far only adds to what was there on entry. */
    twostate predicate Extended()
      reads *
    {
      && old(list) <= list && old(syms) <= syms && old(tls) <= tls && head == old(head)
      && (forall i :: |old(list)| <= i < |list| ==>
            fresh(list[i]) && list[i].fromFile && !list[i].relocated)
      && (forall d :: d in old(list) && old(d.relocated) ==> d.relocated)
      && (forall d :: d in old(list) && old(d.deps).Some? ==> d.deps == old(d.deps))
    }

    /** Only the DSO named may have other dependencies than before, if it had none recorded. */
    twostate predicate DepsKept(new p: Dso?)
      reads this`list, list`deps
    {
      && old(list) <= list
      && forall i :: 0 <= i < |old(list)| ==>
           list[i].deps == old(list[i].deps) || (list[i] == p && old(list[i].deps) == None)
    }

    /** The first part of `dlopen`: the library, at position `k` of the list. */
    method LoadNamed(fs: FileSystem, file: string, noload: bool) returns (p: Dso?, ghost k: nat)
      requires Valid() && AtRuntime()
      modifies this, list`tlsNext, list`next, list`shortname, ldso`prev
      ensures Valid() && Extended() && DepsListed() && syms == old(syms) && symsTail == old(symsTail)
          && lazyHead == old(lazyHead)
      ensures p == null || list == old(list) ==> list == old(list) && tls == old(tls)
                                                 && tlsOffset == old(tlsOffset) && tlsAlign == old(tlsAlign)
      ensures p != null ==> k < |list| && list[k] == p && k <= |old(list)| && Answers(fs, file, head.name, p)
      ensures p != null && p.deps.Some? ==> list == old(list)
      ensures MadeOf(fs, list, |old(list)|)
      ensures p != null ==> p in old(list) || MadeFor(fs, Want(file, head.name), p)
      ensures p != null && p in old(list) ==> old(Answers(fs, file, head.name, p))
      ensures p != null ==> ItOrFound(list, |old(list)|, p, [])
      ensures p == null && calm && !noload ==> Unfindable(fs, Want(file, head.name))
    {
      hide ListOk, SymsOk, TlsOk, IdentsOk, TlsPlaced, Answers, MadeFrom, MadeOf, AllFound, ItOrFound;
      k := 0;
      NothingGained(fs, list, []);
      p := LoadLibrary(fs, file, head.name, noload);
      if p != null {
        if list != old(list) {
          IsNewFrom((Lookup(fs, file, head.name).value, '/' !in file, p));
        }
        k :| 0 <= k < |list| && list[k] == p && k <= |old(list)|;
      }
      GainedOne(fs, Want(file, head.name), old(list), list, |old(list)|, p, []);
      OnceOnly(|old(list)|);
    }

    /** The second part of `dlopen`, for a library that was not opened before: everything it needs. */
    method LoadFirst(fs: FileSystem, p: Dso, noload: bool, ghost k: nat, ghost n: nat) returns (ok: bool)
      requires Valid() && DepsListed() && ldso in list && k < |list| && list[k] == p && p.deps == None
      requires n <= |list| && MadeOf(fs, list, n) && ItOrFound(list, n, p, [])
      modifies this, list`tlsNext, list`next, list`shortname, ldso`prev, p`deps
      ensures Valid() && Extended() && DepsListed() && syms == old(syms) && symsTail == old(symsTail)
          && lazyHead == old(lazyHead)
      ensures p.shortname == old(p.shortname) || old(p.shortname) == None
      ensures ok ==> p.deps.Some? && Answered(fs, AllWants(list[k..]), p.deps.value)
      ensures AnsweredSoFar(fs, AllWants(list[k..]), DepsOf(p), noload)
      ensures MadeOf(fs, list, n) && (ok ==> ItOrFound(list, n, p, p.deps.value))
    {
      hide ListOk, SymsOk, TlsOk, IdentsOk, TlsPlaced, Answers, Answered, AnsweredSoFar, MadeOf, AllFound, ItOrFound;
      var raised;
      ghost var found;
      ok, raised, found := LoadDeps(fs, p, k, true, noload);
      GainedThen(fs, old(list), n, p, found);
      OnceOnly(|old(list)|);
      if ok {
        AllAnswered(fs, AllWants(list[k..]), found, noload);
      }
    }

    lemma {:induction false} OnceOnly(n: nat)
      requires Valid() && n <= |list| && ldso in list[..n]
      ensures forall i :: n <= i < |list| ==> list[i] != ldso
    {}

    /** The third part, for RTLD_LAZY: `prepare_lazy` for the library and for each of its dependencies that
        is not relocated, as often as it is recorded. */
    method PrepareAll(p: Dso, ghost done: seq<Dso>) returns (ok: bool, ghost pushed: seq<Dso>)
      requires p.deps.Some? && !p.relocated && p !in done
      requires forall i :: 0 <= i < |p.deps.value| ==> (p.deps.value[i].relocated <==> p.deps.value[i] in done)
      modifies this`lazyHead, (set d | d in [p] + p.deps.value && !d.relocated)`lazyNext
      ensures PushedOn(pushed, old(lazyHead))
      ensures ok ==> pushed == Prepared([p] + p.deps.value, done)
    {
      hide PushedOn, Prepared;
      var deps := p.deps.value;
      ghost var all, before := [p] + deps, lazyHead;
      NothingPushed();
      PreparedNext(all, 0, done);
      ok, pushed := PrepareLazy(p, before, []);
      var i := 0;
      while ok && i < |deps|
        invariant 0 <= i <= |deps|
        invariant PushedOn(pushed, before)
        invariant ok ==> pushed == Prepared(all[..i + 1], done)
      {
        PreparedNext(all, i + 1, done);
        assert deps[i] in all;
        if !deps[i].relocated {
          ok, pushed := PrepareLazy(deps[i], before, pushed);
        }
        i := i + 1;
      }
      assert all[..|all|] == all;
    }

    lemma {:induction false} NothingPushed()
      ensures PushedOn([], lazyHead)
    {}

    /** `s` is the list that starts at `from` and goes on to `to`. */
    ghost predicate Chain(s: seq<Dso>, from: Dso?, to: Dso?)
      reads s`lazyNext
    {
      && from == (if s == [] then to else s[0])
      && forall i {:trigger Next(s, i, to)} :: 0 <= i < |s| ==> s[i].lazyNext == Next(s, i, to)
    }

    /** Pushing DSOs on the lazy list keeps it, as long as none is pushed twice. */
    lemma {:induction false} PushedOnceKeepsList(pushed: seq<Dso>, before: Dso?, s: seq<Dso>, to: Dso?)
      requires PushedOn(pushed, before) && Chain(s, before, to) && Distinct(pushed)
      ensures Chain(Reversed(pushed) + s, lazyHead, to)
    {
      var n, t := |pushed|, Reversed(pushed) + s;
      forall i | 0 <= i < |t| ensures t[i].lazyNext == Next(t, i, to) {
        if i < n {
          var k := n - 1 - i;
          DistinctTail(pushed, k);
          assert !Again(pushed, k) && t[i] == pushed[k];
          assert k > 0 ==> t[i + 1] == pushed[k - 1];
        } else {
          assert t[i] == s[i - n] && Next(t, i, to) == Next(s, i - n, to);
        }
      }
    }

    /** A DSO pushed twice makes the lazy list go round in a circle: it has an end only if none was. */
    lemma {:induction false} PushedTwiceNeverEnds(pushed: seq<Dso>, before: Dso?, t: seq<Dso>)
      requires PushedOn(pushed, before) && Chain(t, lazyHead, null)
      ensures Distinct(pushed)
    {
      if !Distinct(pushed) {
        var i := LastRepeat(pushed);
        var m := |t| - 1;
        LateWithin(pushed, before, i);
        Trapped(pushed[i + 1..], t, m);
      }
    }

    /** When exactly RTLD_LAZY leaves a lazy list that ends, and so still has on it all that was: when no
        DSO that needs a table comes up twice, as it does when two of the new libraries need it. */
    lemma {:induction false} LazyListEndsIff(all: seq<Dso>, done: seq<Dso>, before: Dso?, s: seq<Dso>)
      requires PushedOn(Prepared(all, done), before) && Chain(s, before, null)
      ensures NoneTwice(all, done) <==> exists t: seq<Dso> :: Chain(t, lazyHead, null)
      ensures NoneTwice(all, done) ==> Chain(Reversed(Prepared(all, done)) + s, lazyHead, null)
    {
      hide PushedOn, Chain, Distinct, NoneTwice, Prepared;
      PreparedOnceIff(all, done);
      if NoneTwice(all, done) {
        PushedOnceKeepsList(Prepared(all, done), before, s, null);
        var u := Reversed(Prepared(all, done)) + s;
        assert Chain(u, lazyHead, null);
      }
      if exists t: seq<Dso> :: Chain(t, lazyHead, null) {
        var t: seq<Dso> :| Chain(t, lazyHead, null);
        PushedTwiceNeverEnds(Prepared(all, done), before, t);
      }
    }

    /** The turn of one DSO in `redo_lazy_relocs`. */
    method RedoTurn(p: Dso)
      modifies this`lazyHead, p`lazyNext, p`pending
      ensures p.pending <= old(p.pending)
      ensures if p.pending > 0 then p.lazyNext == old(lazyHead) && lazyHead == p
              else p.lazyNext == null && lazyHead == old(lazyHead)
    {
      var left: int := *;
      p.pending := if 0 <= left < p.pending then left else p.pending;
      if p.pending > 0 {
        p.lazyNext := lazyHead;
        lazyHead := p;
      } else {
        p.lazyNext := null;
      }
    }

    /** A list whose links are as they were. */
    twostate lemma {:induction false} ChainSame(s: seq<Dso>)
      requires old(Chain(s, lazyHead, null)) && forall d :: d in s ==> d.lazyNext == old(d.lazyNext)
      ensures Chain(s, old(lazyHead), null)
    {}

    lemma {:induction false} ChainFrom(p: Dso, s: seq<Dso>, to: Dso?)
      requires Chain(s, p.lazyNext, to)
      ensures Chain([p] + s, p, to)
    {
      var t := [p] + s;
      forall i | 0 <= i < |t| ensures t[i].lazyNext == Next(t, i, to) {
        assert i > 0 ==> t[i] == s[i - 1] && Next(t, i, to) == Next(s, i - 1, to);
      }
    }

    /** The lazy list stays among these DSOs, wherever it goes. */
    ghost predicate LinksWithin(all: set<Dso>)
      reads this`lazyHead, all`lazyNext
    {
      (lazyHead != null ==> lazyHead in all) && forall d :: d in all && d.lazyNext != null ==> d.lazyNext in all
    }

    static ghost function Links(all: set<Dso>): (links: map<Dso, Dso?>)
      reads all`lazyNext
      ensures links.Keys == all && forall d :: d in all ==> links[d] == d.lazyNext
    {
      map d | d in all :: d.lazyNext
    }

    /** Where the links lead after the first `i` DSOs met. */
    static ghost function After(r: Round, i: nat): Dso?
      requires i <= |r.met| && forall d :: d in r.met ==> d in r.links
    {
      if i == 0 then r.start else r.links[r.met[i - 1]]
    }

    static ghost predicate MetNext(r: Round, i: nat)
      requires i < |r.met| && forall d :: d in r.met ==> d in r.links
    {
      r.met[i] == After(r, i)
    }

    /** Following the links, the DSOs met come first and `p` comes next. */
    static ghost predicate Follows(r: Round, p: Dso?) {
      && Distinct(r.met) && (forall d :: d in r.met ==> d in r.links)
      && (forall i :: 0 <= i < |r.met| ==> MetNext(r, i)) && After(r, |r.met|) == p
    }

    /** The first `n` of them link to none but earlier ones. */
    static ghost predicate Behind(met: seq<Dso>, n: nat)
      requires n <= |met|
      reads met`lazyNext
    {
      forall i :: 0 <= i < n && met[i].lazyNext != null ==> met[i].lazyNext in met[..i]
    }

    static ghost predicate Closed(links: map<Dso, Dso?>) {
      forall d: Dso :: d in links.Values ==> d in links
    }

    /** `redo_lazy_relocs` while it meets DSOs for the first time; `p` is next. */
    ghost predicate First(r: Round, p: Dso?)
      reads this`lazyHead, r.links.Keys`lazyNext, r.met`lazyNext, r.met`pending
    {
      && Closed(r.links) && (r.start != null ==> r.start in r.links) && Follows(r, p)
      && (forall d :: d in r.links && d !in r.met ==> d.lazyNext == r.links[d])
      && (lazyHead != null ==> lazyHead in r.met) && Behind(r.met, |r.met|)
      && Chain(Pending(r.met), lazyHead, null)
    }

    /** `redo_lazy_relocs` once it is back at a DSO it has met: only DSOs met before that one follow. */
    ghost predicate Second(r: Round, p: Dso?, k: nat)
      reads this`lazyHead, r.links.Keys`lazyNext, r.met`lazyNext
    {
      && Distinct(r.met) && Closed(r.links) && (forall d :: d in r.met ==> d in r.links)
      && (forall d :: d in r.links && d !in r.met ==> d.lazyNext == r.links[d])
      && (lazyHead != null ==> lazyHead in r.met)
      && (forall d :: d in r.met && d.lazyNext != null ==> d.lazyNext in r.met)
      && (p != null ==> k < |r.met| && p == r.met[k] && Behind(r.met, k + 1))
    }

    /** `p` has had its turn and nothing else of the round has changed. */
    twostate predicate TurnTaken(r: Round, p: Dso)
      reads this`lazyHead, r.links.Keys`lazyNext, r.links.Keys`pending, p`lazyNext, p`pending
    {
      && (if p.pending > 0 then p.lazyNext == old(lazyHead) && lazyHead == p
          else p.lazyNext == null && lazyHead == old(lazyHead))
      && forall d :: d in r.links && d != p ==> d.lazyNext == old(d.lazyNext) && d.pending == old(d.pending)
    }

    /** `redo_lazy_relocs` with `p` next. */
    ghost predicate Walking(w: Walk, p: Dso?)
      reads this`lazyHead, w.round.links.Keys`lazyNext, w.round.met`lazyNext, w.round.met`pending
    {
      var met := w.round.met;
      && (forall d :: d in met ==> d in w.round.links) && (p != null ==> p in w.round.links)
      && |met| <= |w.round.links| && met <= w.turns && (forall d :: d in w.turns ==> d in met)
      && if w.again then
           && Second(w.round, p, w.k) && Follows(w.round, w.end) && w.end != null && w.end in met
           && |w.turns| <= 2 * |met| && (p != null ==> |w.turns| + w.k < 2 * |met|)
         else
           && First(w.round, p) && w.turns == met && w.end == null && (p != null ==> p !in met)
    }

    /** The turn of one DSO, for the first time or once more. */
    method RedoOne(p: Dso, ghost w: Walk) returns (next: Dso?, ghost w': Walk)
      requires Walking(w, p)
      modifies this`lazyHead, p`lazyNext, p`pending
      ensures Walking(w', next) && w'.round == w.round.(met := w'.round.met) && p in w'.round.met
      ensures w.round.met <= w'.round.met && (w.again ==> w'.again)
      ensures p.pending <= old(p.pending)
      ensures if !w.again then |w.round.met| < |w'.round.met| <= |w.round.links|
              else next != null ==> w'.round == w.round && w'.k < w.k
    {
      hide First, Second, Follows, Distinct;
      if w.again {
        SecondMeets(w.round, p, w.k);
      }
      next := p.lazyNext;
      RedoTurn(p);
      if w.again {
        var k' := SecondStep((w.round, p, w.k));
        w' := w.(k := k', turns := w.turns + [p]);
        SecondMeets(w.round, next, k');
      } else {
        FirstStep((w.round, p));
        var r := w.round.(met := w.round.met + [p]);
        w' := w.(round := r, turns := r.met);
        FirstGoesOn(r, next);
        if next != null && next in r.met {
          var k := SecondBegins(r, next);
          w' := w'.(again := true, k := k, end := next);
        }
      }
    }

    lemma {:induction false} SecondMeets(r: Round, p: Dso?, k: nat)
      requires Second(r, p, k)
      ensures p != null ==> k < |r.met| && p == r.met[k] && p in r.met && p in r.links
    {}

    twostate lemma {:induction false} SecondStep(a: (Round, Dso, nat)) returns (k': nat)
      requires old(Second(a.0, a.1, a.2)) && TurnTaken(a.0, a.1)
      ensures Second(a.0, old(a.1.lazyNext), k') && (old(a.1.lazyNext) != null ==> k' < a.2)
    {
      var r, p, k := a.0, a.1, a.2;
      var met, next := r.met, old(p.lazyNext);
      k' := 0;
      forall i | 0 <= i < |met| && i != k ensures met[i].lazyNext == old(met[i].lazyNext) {
        assert met[i] != met[k];
      }
      if next != null {
        assert next in met[..k];
        k' :| 0 <= k' < k && met[..k][k'] == next;
      }
    }

    twostate lemma {:induction false} FirstStep(a: (Round, Dso))
      requires old(First(a.0, a.1)) && a.1 !in a.0.met && TurnTaken(a.0, a.1)
      ensures First(a.0.(met := a.0.met + [a.1]), old(a.1.lazyNext))
    {
      hide Follows, Behind, Chain, Pending;
      var r, p := a.0, a.1;
      FollowsOn(r, p);
      BehindOn((r, p));
      PendingOn((r, p));
    }

    static lemma {:induction false} FollowsOn(r: Round, p: Dso)
      requires Follows(r, p) && Closed(r.links) && (r.start != null ==> r.start in r.links) && p !in r.met
      ensures p in r.links && Follows(r.(met := r.met + [p]), r.links[p]) && forall d :: d in r.met ==> d in r.links
    {
      var n, q := |r.met|, r.(met := r.met + [p]);
      forall i, j | 0 <= i < j < n + 1 ensures q.met[i] != q.met[j] {
        assert q.met[i] == r.met[i] && (j < n ==> q.met[j] == r.met[j]);
      }
      assert n > 0 ==> r.links[r.met[n - 1]] in r.links.Values;
      forall i | 0 <= i < n + 1 ensures MetNext(q, i) {
        assert i < n ==> MetNext(r, i);
        assert After(q, i) == After(r, i);
      }
    }

    twostate lemma {:induction false} BehindOn(a: (Round, Dso))
      requires old(Behind(a.0.met, |a.0.met|)) && a.1 !in a.0.met && TurnTaken(a.0, a.1)
      requires forall d :: d in a.0.met ==> d in a.0.links
      requires old(lazyHead) != null ==> old(lazyHead) in a.0.met
      ensures Behind(a.0.met + [a.1], |a.0.met| + 1)
    {
      var met, now := a.0.met, a.0.met + [a.1];
      forall i | 0 <= i < |now| && now[i].lazyNext != null ensures now[i].lazyNext in now[..i] {
        assert now[..|met|] == met;
        if i < |met| {
          assert now[i] == met[i] && now[..i] == met[..i] && met[i] in met;
          assert old(met[i].lazyNext) == met[i].lazyNext;
        }
      }
    }

    twostate lemma {:induction false} PendingOn(a: (Round, Dso))
      requires old(Chain(Pending(a.0.met), lazyHead, null)) && a.1 !in a.0.met && TurnTaken(a.0, a.1)
      requires forall d :: d in a.0.met ==> d in a.0.links
      ensures Chain(Pending(a.0.met + [a.1]), lazyHead, null)
    {
      hide Chain, Pending;
      var met, p := a.0.met, a.1;
      PendingSame(met);
      PendingNext(met, p);
      ChainSame(Pending(met));
      if p.pending > 0 {
        ChainFrom(p, Pending(met), null);
      } else {
        assert [] + Pending(met) == Pending(met);
      }
    }

    twostate lemma {:induction false} RedoStarts(all: set<Dso>)
      requires old(LinksWithin(all)) && lazyHead == null && forall d :: d in all ==> d.lazyNext == old(d.lazyNext)
      ensures Walking(Walk(Round(old(Links(all)), old(lazyHead), []), false, 0, null, []), old(lazyHead))
    {}

    lemma {:induction false} FirstGoesOn(r: Round, p: Dso?)
      requires First(r, p)
      ensures |r.met| <= |r.links.Keys| && (forall d :: d in r.met ==> d in r.links) && (p != null ==> p in r.links)
      ensures p != null && p !in r.met ==> |r.met| < |r.links.Keys|
    {
      DistinctFits(r.met, r.links.Keys);
      if p != null && p !in r.met {
        DistinctFits(r.met, r.links.Keys - {p});
      }
    }

    lemma {:induction false} SecondBegins(r: Round, p: Dso) returns (k: nat)
      requires First(r, p) && p in r.met
      ensures k < |r.met| && Second(r, p, k) && Follows(r, p)
    {
      k :| 0 <= k < |r.met| && r.met[k] == p;
      BehindWithin(r.met);
    }

    static lemma {:induction false} BehindWithin(met: seq<Dso>)
      requires Behind(met, |met|)
      ensures forall d :: d in met && d.lazyNext != null ==> d.lazyNext in met
    {
      forall d | d in met && d.lazyNext != null ensures d.lazyNext in met {
        var i :| 0 <= i < |met| && met[i] == d;
        assert met[i].lazyNext in met[..i];
      }
    }

    lemma {:induction false} SecondEnds(r: Round, k: nat)
      requires Second(r, null, k)
      ensures LinksWithin(r.links.Keys)
    {}

    lemma {:induction false} FirstEnds(r: Round)
      requires First(r, null)
      ensures LinksWithin(r.links.Keys) && Follows(r, null) && Chain(Pending(r.met), lazyHead, null)
    {
      BehindWithin(r.met);
    }

    /** The walk of `redo_lazy_relocs`, which overwrites every link right after it has read it.  Whatever
        shape the list has, it ends: the DSOs that the list goes through up to its end, or to one met
        before, have their turn one after the other, then perhaps some of them once more, and no other
        DSO ever has one. */
    method RedoLazyRelocs(ghost all: set<Dso>)
      returns (ghost met: seq<Dso>, ghost end: Dso?, ghost turns: seq<Dso>)
      requires LinksWithin(all)
      modifies this`lazyHead, all`lazyNext, all`pending
      ensures Follows(Round(old(Links(all)), old(lazyHead), met), end) && (end == null || end in met)
      ensures met <= turns && |turns| <= 2 * |met| && forall d :: d in turns ==> d in met && d in all
      ensures forall d :: d in all ==> d.pending <= old(d.pending)
      ensures forall d :: d in all && d !in met ==> d.lazyNext == old(d.lazyNext) && d.pending == old(d.pending)
      // the list can be walked again
      ensures LinksWithin(all)
      // a list that had an end is now those of its DSOs that have entries left, in reverse
      ensures end == null ==> turns == met && Chain(Pending(met), lazyHead, null)
    {
      hide Walking, Follows, Chain, Pending, LinksWithin;
      var p := lazyHead;
      ghost var w := Walk(Round(Links(all), lazyHead, []), false, 0, null, []);
      lazyHead := null;
      RedoStarts(all);
      while p != null
        invariant Walking(w, p) && w.round == Round(old(Links(all)), old(lazyHead), w.round.met)
        invariant forall d :: d in all ==> d.pending <= old(d.pending)
        invariant forall d :: d in all && d !in w.round.met ==>
                    d.lazyNext == old(d.lazyNext) && d.pending == old(d.pending)
        decreases !w.again, |all| - |w.round.met|, if p != null then w.k + 1 else 0
      {
        WalkGoesOn(w, p);
        p, w := RedoOne(p, w);
      }
      WalkEnds(w);
      met, end, turns := w.round.met, w.end, w.turns;
    }

    lemma {:induction false} WalkGoesOn(w: Walk, p: Dso?)
      requires Walking(w, p)
      ensures (p != null ==> p in w.round.links) && |w.round.met| <= |w.round.links|
    {}

    lemma {:induction false} WalkEnds(w: Walk)
      requires Walking(w, null)
      ensures Follows(w.round, w.end) && (w.end == null || w.end in w.round.met)
      ensures w.round.met <= w.turns && |w.turns| <= 2 * |w.round.met|
      ensures forall d :: d in w.turns ==> d in w.round.met && d in w.round.links
      ensures LinksWithin(w.round.links.Keys)
      ensures w.end == null ==> w.turns == w.round.met && Chain(Pending(w.round.met), lazyHead, null)
    {
      hide Chain, Pending;
      if w.again {
        SecondEnds(w.round, w.k);
      } else {
        FirstEnds(w.round);
      }
    }

    /** Who has a turn after these pushes, whatever the list was before: without repeats everybody pushed,
        last one first, and then the old list up to its end or to a DSO met before; otherwise only those pushed
        after the last DSO that comes again, which end at that one; nobody else. */
    lemma {:induction false} TurnsOfPushed(all: set<Dso>, pushed: seq<Dso>, before: Dso?, met: seq<Dso>, end: Dso?)
      returns (s: seq<Dso>, i: nat)
      requires LinksWithin(all) && PushedOn(pushed, before)
      requires (before != null ==> before in all) && forall d :: d in pushed ==> d in all
      requires Follows(Round(Links(all), lazyHead, met), end) && (end == null || end in met)
      ensures Distinct(pushed) ==> met == Reversed(pushed) + s && Chain(s, before, end)
      ensures !Distinct(pushed) ==> IsLastRepeat(pushed, i) && met == Reversed(pushed[i + 1..]) && end == pushed[i]
    {
      hide PushedOn, Chain, Follows, Distinct, LinksWithin;
      s, i := [], 0;
      if Distinct(pushed) {
        var to;
        s, to := WalkOn(all, pushed, before);
        PushedOnceKeepsList(pushed, before, s, to);
        OtherWayRound(pushed, s);
        WalkOfChain(all, Reversed(pushed) + s, to, met, end);
      } else {
        i := LastRepeat(pushed);
        LateAreChain(pushed, before, i);
        assert pushed[i] in Members(pushed[i + 1..]);
        WalkOfChain(all, Reversed(pushed[i + 1..]), pushed[i], met, end);
      }
    }

    /** Wherever the links begin, they come to an end or to a DSO seen before. */
    lemma {:induction false} WalkOn(all: set<Dso>, seen: seq<Dso>, from: Dso?) returns (s: seq<Dso>, to: Dso?)
      requires LinksWithin(all) && (from != null ==> from in all)
      requires Distinct(seen) && forall d :: d in seen ==> d in all
      ensures Chain(s, from, to) && Distinct(seen + s) && (to == null || to in seen + s)
      decreases |all| - |seen|
    {
      s, to := [], from;
      assert seen + [] == seen;
      if from != null && from !in seen {
        OneMoreDistinct(seen, from);
        DistinctFits(seen + [from], all);
        s, to := WalkOn(all, seen + [from], from.lazyNext);
        ChainFrom(from, s, to);
        assert seen + [from] + s == seen + ([from] + s);
        s := [from] + s;
      }
    }

    static lemma {:induction false} OtherWayRound(pushed: seq<Dso>, s: seq<Dso>)
      requires Distinct(pushed + s)
      ensures Distinct(Reversed(pushed) + s) && forall d :: d in pushed + s ==> d in Reversed(pushed) + s
    {
      var n, t, u := |pushed|, pushed + s, Reversed(pushed) + s;
      forall i, j | 0 <= i < j < |u| ensures u[i] != u[j] {
        assert u[i] == t[if i < n then n - 1 - i else i] && u[j] == t[if j < n then n - 1 - j else j];
      }
      forall d | d in t ensures d in u {
        var i :| 0 <= i < |t| && t[i] == d;
        assert u[if i < n then n - 1 - i else i] == d;
      }
    }

    /** Pushing keeps a walk of the list among the DSOs it kept to before, and those pushed. */
    lemma {:induction false} PushedWithin(pushed: seq<Dso>, before: Dso?, late: set<Dso>)
      requires PushedOn(pushed, before) && (before != null ==> before in late)
      requires forall d :: d in late && d !in pushed && d.lazyNext != null ==> d.lazyNext in late
      ensures LinksWithin(late + Members(pushed))
    {
      var all := late + Members(pushed);
      forall d | d in all && d.lazyNext != null ensures d.lazyNext in all {
        if d in pushed {
          var i := LastOf(pushed, d);
          assert pushed[i].lazyNext == Previous(pushed, i, before);
        }
      }
    }

    /** After a repeat it never leaves those pushed later. */
    lemma {:induction false} LateWithin(pushed: seq<Dso>, before: Dso?, i: nat)
      requires PushedOn(pushed, before) && IsLastRepeat(pushed, i)
      ensures lazyHead in pushed[i + 1..] && forall d :: d in pushed[i + 1..] ==> d.lazyNext in pushed[i + 1..]
      ensures LinksWithin(Members(pushed[i + 1..]))
    {
      hide PushedOn, Distinct;
      var s := Reversed(pushed[i + 1..]);
      LateAreChain(pushed, before, i);
      assert pushed[i] in Members(s) && s[0] in Members(s);
      forall d | d in Members(pushed[i + 1..]) ensures d.lazyNext in Members(s) {
        assert d in Members(s);
        var k :| 0 <= k < |s| && s[k] == d;
        assert s[k].lazyNext == Next(s, k, pushed[i]);
      }
    }

    static lemma {:induction false} LastOf(s: seq<Dso>, d: Dso) returns (i: nat)
      requires d in s
      ensures i < |s| && s[i] == d && !Again(s, i)
    {
      if s[|s| - 1] == d {
        i := |s| - 1;
      } else {
        i := LastOf(s[..|s| - 1], d);
        assert s[i + 1..] == s[..|s| - 1][i + 1..] + [s[|s| - 1]];
      }
    }

    /** What was pushed after the last repeat goes round. */
    lemma {:induction false} LateAreChain(pushed: seq<Dso>, before: Dso?, i: nat)
      requires PushedOn(pushed, before) && IsLastRepeat(pushed, i)
      ensures Chain(Reversed(pushed[i + 1..]), lazyHead, pushed[i]) && Distinct(Reversed(pushed[i + 1..]))
      ensures Members(Reversed(pushed[i + 1..])) == Members(pushed[i + 1..])
    {
      hide Distinct;
      var late, s := pushed[i + 1..], Reversed(pushed[i + 1..]);
      var n := |late|;
      forall k | 0 <= k < n ensures s[k].lazyNext == Next(s, k, pushed[i]) {
        assert s[k] == pushed[i + n - k] && !Again(pushed, i + n - k);
        assert k < n - 1 ==> s[k + 1] == pushed[i + n - k - 1];
      }
      LateDistinct(pushed, i);
      forall d | d in Members(late) ensures d in Members(s) {
        var k :| 0 <= k < n && late[k] == d;
        assert s[n - 1 - k] == d;
      }
    }

    static lemma {:induction false} LateDistinct(pushed: seq<Dso>, i: nat)
      requires IsLastRepeat(pushed, i)
      ensures Distinct(Reversed(pushed[i + 1..]))
    {
      var late, s := pushed[i + 1..], Reversed(pushed[i + 1..]);
      var n := |late|;
      forall j, k | 0 <= j < k < n ensures s[j] != s[k] {
        var q := i + n - k;
        assert s[k] == pushed[q] && s[j] == pushed[i + n - j];
        assert !Again(pushed, q) && pushed[q + 1..][i + n - j - (q + 1)] == s[j];
      }
    }

    /** The walk meets the DSOs of a list in their order. */
    lemma {:induction false} WalkOfChain(all: set<Dso>, s: seq<Dso>, to: Dso?, met: seq<Dso>, end: Dso?)
      requires Chain(s, lazyHead, to) && Distinct(s) && (to == null || to in s)
      requires Follows(Round(Links(all), lazyHead, met), end) && (end == null || end in met)
      ensures met == s && end == to
    {
      var m := |met|;
      assert met[..m] == met;
      WalkSoFar(all, s, to, met, end, m);
      if m < |s| {
        LaterElement(s, m);
      }
    }

    static lemma {:induction false} LaterElement(s: seq<Dso>, m: nat)
      requires Distinct(s) && m < |s|
      ensures s[m] !in s[..m]
    {}

    lemma {:induction false} WalkSoFar(all: set<Dso>, s: seq<Dso>, to: Dso?, met: seq<Dso>, end: Dso?, m: nat)
      requires Chain(s, lazyHead, to) && (to == null || to in s) && m <= |met|
      requires Follows(Round(Links(all), lazyHead, met), end)
      ensures m <= |s| && met[..m] == s[..m]
      ensures After(Round(Links(all), lazyHead, met), m) == if m < |s| then s[m] else to
    {
      var r := Round(Links(all), lazyHead, met);
      if m > 0 {
        WalkSoFar(all, s, to, met, end, m - 1);
        assert MetNext(r, m - 1);
        if m - 1 == |s| {
          var k :| 0 <= k < |s| && s[k] == to;
        }
        assert s[m - 1].lazyNext == Next(s, m - 1, to);
        assert met[..m] == met[..m - 1] + [met[m - 1]];
        assert s[..m] == s[..m - 1] + [s[m - 1]];
      }
    }

    /** The DSOs that stay on the lazy list, last one first. */
    static ghost function Pending(s: seq<Dso>): (r: seq<Dso>)
      reads s`pending
      ensures forall d :: d in r ==> d in s
    {
      if s == [] then []
      else
        var d := s[|s| - 1];
        (if d.pending > 0 then [d] else []) + Pending(s[..|s| - 1])
    }

    static lemma {:induction false} PendingNext(s: seq<Dso>, d: Dso)
      ensures Pending(s + [d]) == (if d.pending > 0 then [d] else []) + Pending(s)
    {
      assert (s + [d])[..|s|] == s;
    }

    static twostate lemma {:induction false} PendingSame(s: seq<Dso>)
      requires forall d :: d in s ==> d.pending == old(d.pending)
      ensures Pending(s) == old(Pending(s))
    {
      if s != [] {
        PendingSame(s[..|s| - 1]);
      }
    }

    /** Whoever walks the list stays among DSOs that link only to each other. */
    lemma {:induction false} Trapped(late: seq<Dso>, t: seq<Dso>, m: nat)
      requires Chain(t, lazyHead, null) && m < |t| && lazyHead in late && forall d :: d in late ==> d.lazyNext in late
      ensures t[m] in late && m < |t| - 1
    {
      assert t[m].lazyNext == Next(t, m, null);
      if m > 0 {
        Trapped(late, t, m - 1);
        assert t[m - 1].lazyNext == Next(t, m - 1, null);
      }
    }

    /** The fourth part of `dlopen`: the library and its dependencies join the symbol chain. */
    method MakeGlobal(p: Dso)
      requires Valid() && p in list && p.deps.Some? && forall d :: d in p.deps.value ==> d in list
      modifies this`symsTail, this`syms, list`symsNext
      ensures Valid() && old(syms) <= syms
      ensures forall d :: d in syms <==> d in old(syms) || d == p || d in p.deps.value
    {
      hide ListOk, TlsOk, IdentsOk, SymsOk, TlsPlaced;
      AddSyms(p);
      var i := 0;
      while i < |p.deps.value|
        invariant Valid() && 0 <= i <= |p.deps.value| && old(syms) <= syms
        invariant forall d :: d in syms <==> d in old(syms) || d == p || d in p.deps.value[..i]
      {
        AddSyms(p.deps.value[i]);
        i := i + 1;
      }
    }

    /** The library and, if it was not opened before, what it needs. */
    method LoadAll(fs: FileSystem, file: string, noload: bool)
      returns (p: Dso?, first: bool, ok: bool, ghost k: nat)
      requires Valid() && AtRuntime()
      modifies this, list`tlsNext, list`next, list`shortname, list`deps, ldso`prev
      ensures Valid() && Extended() && DepsListed() && syms == old(syms) && symsTail == old(symsTail)
          && lazyHead == old(lazyHead)
      ensures p == null ==> ok && list == old(list) && tls == old(tls)
                            && tlsOffset == old(tlsOffset) && tlsAlign == old(tlsAlign)
      ensures p != null ==> k < |list| && list[k] == p && k <= |old(list)|
      ensures p != null && !first ==> ok && list == old(list)
      ensures p != null ==> Answers(fs, file, head.name, p) && (ok ==> p.deps.Some?)
      ensures p != null ==> first == !WasOpened(p)
      ensures p != null && ok && first ==> Answered(fs, AllWants(list[k..]), p.deps.value)
      ensures p != null && first ==> AnsweredSoFar(fs, AllWants(list[k..]), DepsOf(p), noload)
      ensures DepsKept(p)
      ensures p == null && calm && !noload ==> Unfindable(fs, Want(file, head.name))
      ensures MadeOf(fs, list, |old(list)|)
      ensures p != null ==> p in old(list) || MadeFor(fs, Want(file, head.name), p)
      ensures p != null && p in old(list) ==> old(Answers(fs, file, head.name, p))
      ensures p != null && ok ==> ItOrFound(list, |old(list)|, p, p.deps.value)
    {
      hide ListOk, SymsOk, TlsOk, IdentsOk, TlsPlaced, IsSelf, Lookup, Answered, AnsweredSoFar, AllWants, Unfindable,
           MadeOf, AllFound, ItOrFound, MadeFor;
      first, ok := false, true;
      p, k := LoadNamed(fs, file, noload);
      if p == null {
        return;
      }
      first := p.deps == None;
      if first {
        assert forall i :: 0 <= i < |list| ==> list[i] in old(list) || fresh(list[i]);
        ok := LoadFirst(fs, p, noload, k, |old(list)|);
      } else {
        NothingGained(fs, list, p.deps.value);
      }
    }

    /** The library, and then what it needs. */
    lemma {:induction false} GainedThen(fs: FileSystem, had: seq<Dso>, n: nat, p: Dso, found: seq<Dso>)
      requires n <= |had| && had <= list && MadeOf(fs, had, n) && MadeOf(fs, list, |had|) && ItOrFound(had, n, p, [])
      ensures MadeOf(fs, list, n) && (AllFound(list, |had|, found) ==> ItOrFound(list, n, p, found))
    {
      hide IsOfFiles;
      forall i | n <= i < |had| ensures list[i] == had[i] {}
    }

    /** The lazy list has been added to: for RTLD_LAZY by the new DSOs that get a table. */
    twostate predicate LazyExtended(new p: Dso, lazy: bool, new pushed: seq<Dso>)
      reads this`lazyHead, pushed`lazyNext, p`deps
    {
      && PushedOn(pushed, old(lazyHead)) && p.deps.Some?
      && pushed == if lazy && p !in old(list) then Prepared([p] + p.deps.value, old(list)) else []
    }

    /** The loading half of what a `longjmp` may leave. */
    method Load(fs: FileSystem, file: string, lazy: bool, noload: bool)
      returns (p: Dso?, first: bool, ok: bool, ghost k: nat, ghost pushed: seq<Dso>)
      requires Valid() && AtRuntime()
      modifies this, list`tlsNext, list`next, list`shortname, list`deps, ldso`prev
      ensures Valid() && Extended() && DepsListed() && syms == old(syms) && symsTail == old(symsTail)
      ensures p == null ==> ok && list == old(list) && tls == old(tls)
                            && tlsOffset == old(tlsOffset) && tlsAlign == old(tlsAlign) && lazyHead == old(lazyHead)
      ensures p != null ==> k < |list| && list[k] == p && k <= |old(list)|
      ensures p != null && !first ==> ok && list == old(list)
      ensures p != null ==> Answers(fs, file, head.name, p) && (ok ==> p.deps.Some?)
      ensures p != null ==> first == !WasOpened(p)
      ensures p != null && ok && first ==> Answered(fs, AllWants(list[k..]), p.deps.value)
      ensures p != null && first ==> AnsweredSoFar(fs, AllWants(list[k..]), DepsOf(p), noload)
      ensures DepsKept(p)
      ensures p == null && calm && !noload ==> Unfindable(fs, Want(file, head.name))
      ensures MadeOf(fs, list, |old(list)|)
      ensures p != null ==> p in old(list) || MadeFor(fs, Want(file, head.name), p)
      ensures p != null && p in old(list) ==> old(Answers(fs, file, head.name, p))
      ensures p != null && ok ==> ItOrFound(list, |old(list)|, p, p.deps.value) && LazyExtended(p, lazy, pushed)
    {
      hide ListOk, SymsOk, TlsOk, IdentsOk, TlsPlaced, Answers, Answered, AnsweredSoFar, PushedOn, Prepared, AllWants,
           Unfindable, MadeOf, AllFound, ItOrFound, MadeFor;
      p, first, ok, k := LoadAll(fs, file, noload);
      pushed := [];
      NothingPushed();
      Unrelocated();
      if p != null && ok && first && !p.relocated && lazy {
        ok, pushed := PrepareAll(p, old(list));
      }
    }

    /** The linking half of what a `longjmp` may leave. */
    method Link(p: Dso, first: bool, global: bool, origSymsTail: Dso, ghost k: nat, ghost syms0: seq<Dso>)
      returns (ok: bool)
      requires k < |list| && list[k] == p && p.deps.Some?
      requires syms0 != [] && syms0 <= syms && syms0[|syms0| - 1] == origSymsTail
      requires DepsListed() && Valid()
      modifies this`symsTail, this`syms, list`symsNext, list`relocated, (set d | d in list && !d.relocated)`pending
      ensures (ok && !global ==> syms == syms0) && (!ok || global ==> old(syms) <= syms)
      ensures ok && global ==> forall d :: d in syms <==> d in old(syms) || d == p || d in p.deps.value
      ensures forall d :: d in list && old(d.relocated) ==> d.relocated
      ensures ok && first ==> forall j :: k <= j < |list| ==> list[j].relocated
      ensures Valid()
    {
      hide ListOk, SymsOk, TlsOk, IdentsOk, TlsPlaced;
      ok := true;
      if first || global {
        MakeGlobal(p);
      }
      if first {
        ok := RelocAll(p, k);
        if !ok {
          return;
        }
      }
      if !global {
        RevertSyms(origSymsTail, syms0);
      }
    }

    twostate lemma {:induction false} Unrelocated()
      requires Extended() && old(AtRuntime())
      ensures forall d :: d in list ==> (d.relocated <==> d in old(list)) && (!d.relocated ==> fresh(d))
    {
      forall d | d in list ensures (d.relocated <==> d in old(list)) && (!d.relocated ==> fresh(d)) {
        var i :| 0 <= i < |list| && list[i] == d;
      }
    }

    /** Every list, and every link of every DSO on it, is as on entry. */
    twostate predicate Restored()
      reads *
    {
      && list == old(list) && syms == old(syms) && tls == old(tls)
      && head == old(head) && tail == old(tail) && symsTail == old(symsTail) && lazyHead == old(lazyHead)
      && tlsHead == old(tlsHead) && tlsTail == old(tlsTail)
      && tlsCnt == old(tlsCnt) && tlsOffset == old(tlsOffset) && tlsAlign == old(tlsAlign)
      && forall d :: d in list ==>
           && d.next == old(d.next) && d.prev == old(d.prev) && d.symsNext == old(d.symsNext)
           && d.lazyNext == old(d.lazyNext) && (d in tls ==> d.tlsNext == old(d.tlsNext))
    }

    ghost predicate ListLinks()
      reads this`list, list`next, list`prev
    {
      forall i :: 0 <= i < |list| ==> list[i].next == Next(list, i, null) && list[i].prev == Previous(list, i, null)
    }

    ghost predicate SymLinks()
      reads this`list, this`syms, list`symsNext, syms`symsNext
    {
      && (forall i :: 0 <= i < |syms| ==> syms[i].symsNext == Next(syms, i, null))
      && (forall d :: d in list && d !in syms ==> d.symsNext == null)
    }

    ghost predicate TlsLinks()
      reads this`tls, tls`tlsNext
    {
      forall i :: 0 <= i < |tls| ==> tls[i].tlsNext == Next(tls, i, null)
    }

    lemma {:induction false} ListEnds()
      requires ListOk()
      ensures |list| > 0 && list[|list| - 1] == tail && list[0] == head && ListLinks()
    {}

    lemma {:induction false} SymsEnds()
      requires SymsOk()
      ensures |syms| > 0 && syms[|syms| - 1] == symsTail && SymLinks() && forall d :: d in syms ==> d in list
    {}

    lemma {:induction false} PlacesRise()
      requires TlsPlaced()
      ensures (forall i :: 0 <= i < |tls| ==> tls[i].tls.Some?) && GiveRise(tls, tlsOffset, tlsAlign)
    {}

    lemma {:induction false} TlsEnds()
      requires TlsOk()
      ensures tlsCnt == |tls| && tlsTail == (if tlsCnt == 0 then null else tls[tlsCnt - 1])
      ensures tlsHead == if tlsCnt == 0 then null else tls[0]
      ensures TlsLinks() && (tlsTail != null ==> tlsTail in list) && forall d :: d in tls ==> d in list
    {}

    /** The lists determine the links. */
    twostate lemma {:induction false} SameListsSameLinks()
      requires old(ListLinks() && SymLinks() && TlsLinks()) && ListLinks() && SymLinks() && TlsLinks()
      requires list == old(list) && syms == old(syms) && tls == old(tls)
      ensures forall d :: d in list ==>
                d.next == old(d.next) && d.prev == old(d.prev) && d.symsNext == old(d.symsNext)
      ensures forall d :: d in tls ==> d.tlsNext == old(d.tlsNext)
    {
      forall d | d in list
        ensures d.next == old(d.next) && d.prev == old(d.prev) && d.symsNext == old(d.symsNext)
      {
        var i :| 0 <= i < |list| && list[i] == d;
        assert old(list[i].next) == Next(list, i, null);
        if d in syms {
          var j :| 0 <= j < |syms| && syms[j] == d;
          assert old(syms[j].symsNext) == Next(syms, j, null);
        }
      }
      forall d | d in tls ensures d.tlsNext == old(d.tlsNext) {
        var i :| 0 <= i < |tls| && tls[i] == d;
        assert old(tls[i].tlsNext) == Next(tls, i, null);
      }
    }

    /** What the lists were is still where the lists begin. */
    twostate lemma {:induction false} StillThere()
      requires Extended()
      ensures old(list) <= list && old(syms) <= syms && old(tls) <= tls
      ensures list[..|old(list)|] == old(list) && syms[..|old(syms)|] == old(syms) && tls[..|old(tls)|] == old(tls)
      ensures head == old(head)
      ensures forall i :: 0 <= i < |list| ==> list[i] in old(list) || fresh(list[i])
      ensures forall d :: d in list[|old(list)|..] ==> fresh(d) && d.fromFile
      ensures forall d :: d in old(list) ==>
                (old(d.relocated) ==> d.relocated) && (old(d.deps).Some? ==> d.deps == old(d.deps))
    {}

    /** What a successful `dlopen` gives: the library is on the list, at position `k`, and is what the name
        leads to; the DSOs that are new were made from the files, and are the library or dependencies of
        it; the first time, these answer whatever it and the DSOs after it need; the lazy list has been added to;
        everything is relocated; and RTLD_GLOBAL alone decides what joins the symbol chain. */
    twostate predicate Opened(fs: FileSystem, file: string, global: bool, lazy: bool, new p: Dso, k: nat,
        new pushed: seq<Dso>)
      reads *
    {
      && AtRuntime() && old(list) <= list && k < |list| && list[k] == p && k <= |old(list)|
      && LedTo(fs, Want(file, head.name), p)
      && (forall d :: d in list[|old(list)|..] ==>
            fresh(d) && d.fromFile && IsOfFiles(fs, d) && (d == p || d in DepsOf(p)))
      && p.deps.Some? && Answers(fs, file, head.name, p) && LazyExtended(p, lazy, pushed)
      && (if WasOpened(p) then list == old(list)
          else Answered(fs, AllWants(list[k..]), p.deps.value))
      && old(syms) <= syms
      && (forall d :: d in list ==> (d in syms <==> d in old(syms) || (global && (d == p || d in p.deps.value))))
    }

    /** The DSO that was found is at position `k`, and unless its dependencies were recorded before, what
        was loaded for it answers its needs as far as loading went. */
    ghost predicate Tried(fs: FileSystem, file: string, noload: bool, p: Dso, k: nat, tried: seq<Dso>, before: bool)
      reads this`head, p`shortname, p`deps, DepsOf(p)`shortname
    {
      TriedWith(fs, Want(file, head.name), noload, p, k, tried, before, DepsOf(p))
    }

    ghost predicate TriedWith(fs: FileSystem, w: Want, noload: bool, p: Dso, k: nat, tried: seq<Dso>, before: bool,
                              found: seq<Dso>)
      reads p`shortname, found`shortname
    {
      && k < |tried| && tried[k] == p && Answers(fs, w.name, w.requester, p)
      && (before || AnsweredSoFar(fs, AllWants(tried[k..]), found, noload))
    }

    /** The dependencies of the DSO were recorded in an earlier call. */
    twostate predicate WasOpened(new p: Dso)
      reads {}
    {
      p in old(list) && old(p.deps).Some?
    }

    /** What a failed `dlopen` leaves.  `named` is the DSO the name led to, if any, at position `k` of what
        was the load list when the attempt ended; `freed` are the DSOs that were given up. */
    twostate predicate Failed(fs: FileSystem, file: string, noload: bool, new named: Dso?, k: nat, new freed: seq<Dso>)
      reads *
    {
      && Restored() && (forall d :: d in freed ==> fresh(d) && d.fromFile && IsOfFiles(fs, d))
      && OneOfEachFile(list + freed)
      && (forall d :: d in list ==> d.relocated)
      && (if named == null then freed == [] && (calm && !noload ==> Unfindable(fs, Want(file, head.name)))
          else LedTo(fs, Want(file, head.name), named)
               && Tried(fs, file, noload, named, k, list + freed, WasOpened(named)))
      // recorded dependencies are kept, but for those of a DSO that was there and had none
      && (forall d :: d in list ==> d.deps == old(d.deps) || (d == named && old(d.deps) == None))
      // so another call is possible exactly when nothing recorded there has been given up
      && (AtRuntime() <==> (named != null && named in list ==> forall e :: e in DepsOf(named) ==> e in list))
    }

    lemma {:induction false} CanCutHere()
      requires Valid()
      ensures CanCutTo(tail, symsTail, tlsTail, tlsCnt, tlsOffset, tlsAlign, list, syms, tls)
    {
      hide ListOk, SymsOk, TlsOk, TlsPlaced, GiveRise, IdentsOk, ListLinks, SymLinks, TlsLinks;
      ListEnds();
      SymsEnds();
      TlsEnds();
      PlacesRise();
    }

    /** What `dlopen` saved on entry is what the lists can be cut back to. */
    twostate lemma {:induction false} CanBeCut()
      requires old(CanCutTo(tail, symsTail, tlsTail, tlsCnt, tlsOffset, tlsAlign, list, syms, tls))
      requires forall d :: d in old(tls) ==> d.tlsOffset == old(d.tlsOffset)
      ensures CanCutTo(old(tail), old(symsTail), old(tlsTail), old(tlsCnt), old(tlsOffset), old(tlsAlign), old(list),
                       old(syms), old(tls))
    {
      hide GiveRise;
      GiveRiseSame((old(tls), old(tlsOffset), old(tlsAlign)));
    }

    twostate lemma {:induction false} GiveRiseSame(g: (seq<Dso>, word, word))
      requires forall i :: 0 <= i < |g.0| ==> g.0[i].tls.Some? && g.0[i].tlsOffset == old(g.0[i].tlsOffset)
      ensures GiveRise(g.0, g.1, g.2) <==> old(GiveRise(g.0, g.1, g.2))
    {
      ModulesSame(g.0);
    }

    lemma {:induction false} FilesOnce()
      requires IdentsOk()
      ensures OneOfEachFile(list)
    {}

    twostate lemma {:induction false} NextCallPossibleIff(new named: Dso?)
      requires old(AtRuntime()) && list == old(list) && forall d :: d in list ==> d.relocated
      requires forall d :: d in list ==> d.deps == old(d.deps) || (d == named && old(d.deps) == None)
      ensures AtRuntime() <==> (named != null && named in list ==> forall e :: e in DepsOf(named) ==> e in list)
    {
      forall d | d in list && d != named && d.deps.Some? ensures forall e :: e in d.deps.value ==> e in list {
        assert d.deps == old(d.deps);
      }
    }

    /** Lists that are as on entry, with the counters and links that go with them. */
    twostate lemma {:induction false} RestoredHolds()
      requires old(ListOk() && SymsOk() && TlsOk()) && ListOk() && SymsOk() && TlsOk()
      requires list == old(list) && syms == old(syms) && tls == old(tls) && lazyHead == old(lazyHead)
      requires tlsOffset == old(tlsOffset) && tlsAlign == old(tlsAlign)
      requires old(ListLinks() && SymLinks() && TlsLinks())
      requires forall d :: d in list ==> d.lazyNext == old(d.lazyNext)
      ensures Restored()
    {
      hide ListLinks, SymLinks, TlsLinks;
      ListEnds();
      SymsEnds();
      TlsEnds();
      SameListsSameLinks();
    }

    twostate lemma {:induction false} FailedHolds(new f: (FileSystem, string, bool, Dso?, nat, seq<Dso>))
      requires old(AtRuntime()) && Restored() && OneOfEachFile(list + f.5)
      requires forall d :: d in f.5 ==> fresh(d) && d.fromFile && IsOfFiles(f.0, d)
      requires if f.3 == null then f.5 == [] && (calm && !f.2 ==> Unfindable(f.0, Want(f.1, head.name)))
               else LedTo(f.0, Want(f.1, head.name), f.3)
                    && Tried(f.0, f.1, f.2, f.3, f.4, list + f.5, WasOpened(f.3))
      requires forall d :: d in list ==> d.relocated
      requires forall d :: d in list ==> d.deps == old(d.deps) || (d == f.3 && old(d.deps) == None)
      ensures Failed(f.0, f.1, f.2, f.3, f.4, f.5)
    {
      hide Tried, Unfindable, AtRuntime, LedTo, IsOfFiles;
      NextCallPossibleIff(f.3);
    }

    twostate lemma {:induction false} OpenedHolds(new o: (FileSystem, string, bool, bool, Dso, nat, seq<Dso>))
      requires AtRuntime() && old(list) <= list && o.5 < |list| && list[o.5] == o.4 && o.5 <= |old(list)|
      requires LedTo(o.0, Want(o.1, head.name), o.4)
      requires forall d :: d in list[|old(list)|..] ==>
                 fresh(d) && d.fromFile && IsOfFiles(o.0, d) && (d == o.4 || d in DepsOf(o.4))
      requires o.4.deps.Some? && Answers(o.0, o.1, head.name, o.4) && LazyExtended(o.4, o.3, o.6) && head == old(head)
      requires WasOpened(o.4) ==> list == old(list)
      requires !WasOpened(o.4) ==> Answered(o.0, AllWants(list[o.5..]), o.4.deps.value)
      requires old(syms) <= syms && (!o.2 ==> syms == old(syms))
      requires o.2 ==> forall d :: d in syms <==> d in old(syms) || d == o.4 || d in o.4.deps.value
      ensures Opened(o.0, o.1, o.2, o.3, o.4, o.5, o.6)
    {
      hide Answers, LedTo, IsOfFiles, LazyExtended, Answered, AllWants, AtRuntime;
    }

    lemma {:induction false} Newcomers(fs: FileSystem, n: nat, p: Dso?, found: seq<Dso>)
      requires MadeOf(fs, list, n) && n <= |list| && forall d :: d in list[n..] ==> d != ldso
      ensures forall d :: d in list[n..] ==> IsOfFiles(fs, d)
      ensures p != null && ItOrFound(list, n, p, found) ==> forall d :: d in list[n..] ==> d == p || d in found
    {
      hide IsOfFiles;
      forall d | d in list[n..]
        ensures IsOfFiles(fs, d) && (p != null && ItOrFound(list, n, p, found) ==> d == p || d in found)
      {
        var i :| 0 <= i < |list[n..]| && list[n..][i] == d;
        assert list[n + i] == d;
      }
    }

    twostate lemma {:induction false} OldDeps(new p: Dso?)
      requires DepsKept(p)
      ensures forall d :: d in old(list) ==> d.deps == old(d.deps) || (d == p && old(d.deps) == None)
    {
      forall d | d in old(list) ensures d.deps == old(d.deps) || (d == p && old(d.deps) == None) {
        var i :| 0 <= i < |old(list)| && old(list)[i] == d;
        assert list[i] == d;
      }
    }

    /** What a `longjmp` may leave. */
    method TryOpen(fs: FileSystem, file: string, global: bool, lazy: bool, noload: bool)
      returns (p: Dso?, ok: bool, ghost k: nat, ghost pushed: seq<Dso>)
      requires Valid() && AtRuntime()
      modifies this, ldso`prev
      modifies list`tlsNext, list`next, list`shortname, list`deps, list`symsNext, list`relocated
      ensures Valid() && head == old(head) && old(list) <= list && old(syms) <= syms && old(tls) <= tls
      ensures forall d :: d in list[|old(list)|..] ==> fresh(d) && d.fromFile && IsOfFiles(fs, d)
      ensures forall i :: 0 <= i < |list| ==> list[i] in old(list) || fresh(list[i])
      ensures p != null ==> LedTo(fs, Want(file, head.name), p)
      ensures forall d :: d in old(list) ==>
                d.relocated && (d.deps == old(d.deps) || (d == p && old(d.deps) == None))
      ensures p == null ==> ok && list == old(list) && syms == old(syms) && tls == old(tls)
                            && tlsOffset == old(tlsOffset) && tlsAlign == old(tlsAlign) && lazyHead == old(lazyHead)
                            && (calm && !noload ==> Unfindable(fs, Want(file, head.name)))
      ensures p != null && ok ==> Opened(fs, file, global, lazy, p, k, pushed)
      ensures p != null && !ok ==> Tried(fs, file, noload, p, k, list, WasOpened(p))
    {
      hide ListOk, SymsOk, TlsOk, IdentsOk, TlsPlaced, Answers, Answered, AnsweredSoFar, Extended, ListLinks, SymLinks,
           TlsLinks, LazyExtended, AllWants, Unfindable, MadeOf, ItOrFound, MadeFor, IsOfFiles, Opened,
           DepsKept;
      SymsEnds();
      var origSymsTail := symsTail;
      var first;
      p, first, ok, k, pushed := Load(fs, file, lazy, noload);
      StillThere();
      OldDeps(p);
      Newcomers(fs, |old(list)|, p, if p != null then DepsOf(p) else []);
      if p != null && ok {
        ok := Link(p, first, global, origSymsTail, k, old(syms));
        if ok {
          OpenedHolds((fs, file, global, lazy, p, k, pushed));
        }
      }
    }

    /** The cleanup, which leaves recorded dependencies and short names alone. */
    method GiveUp(origTail: Dso, origSymsTail: Dso, origTlsTail: Dso?, origTlsCnt: nat, origTlsOffset: word,
                  origTlsAlign: word, origLazyHead: Dso?, ghost list0: seq<Dso>, ghost syms0: seq<Dso>,
                  ghost tls0: seq<Dso>, ghost fs: FileSystem, ghost file: string, ghost noload: bool, ghost named: Dso,
                  ghost k: nat, ghost before: bool)
      returns (ghost freed: seq<Dso>)
      requires Valid() && list0 <= list && syms0 <= syms && tls0 <= tls && ldso in list0
      requires CanCutTo(origTail, origSymsTail, origTlsTail, origTlsCnt, origTlsOffset, origTlsAlign, list0, syms0,
                        tls0)
      requires Tried(fs, file, noload, named, k, list, before)
      modifies this`symsTail, this`syms, this`tlsHead, this`tlsTail, this`tlsCnt, this`tlsOffset, this`tlsAlign
      modifies this`tls, this`lazyHead, this`tail, this`list, list`symsNext, list`next, list`tlsNext
      ensures Valid() && list == list0 && syms == syms0 && tls == tls0
      ensures tlsOffset == origTlsOffset && tlsAlign == origTlsAlign && lazyHead == origLazyHead
      ensures old(list) == list0 + freed && Tried(fs, file, noload, named, k, list0 + freed, before)
    {
      hide ListOk, SymsOk, TlsOk, IdentsOk, TlsPlaced, CanCutTo, TriedWith;
      ghost var found := DepsOf(named);
      freed := Cleanup(origTail, origSymsTail, origTlsTail, origTlsCnt, origTlsOffset, origTlsAlign, origLazyHead,
                       list0, syms0, tls0);
      assert DepsOf(named) == found;
    }

    /** `dlopen` up to the point where it commits, or what it restores on failure. */
    method OpenOrRevert(fs: FileSystem, file: string, global: bool, lazy: bool, noload: bool)
      returns (p: Dso?, ghost named: Dso?, ghost k: nat, ghost pushed: seq<Dso>, ghost freed: seq<Dso>)
      requires Valid() && AtRuntime()
      modifies this, ldso`prev
      modifies list`tlsNext, list`next, list`shortname, list`deps, list`symsNext, list`relocated
      ensures Valid() && (p != null ==> p == named && freed == [] && Opened(fs, file, global, lazy, p, k, pushed))
      ensures p == null ==> list == old(list) && syms == old(syms) && tls == old(tls) && lazyHead == old(lazyHead)
                            && tlsOffset == old(tlsOffset) && tlsAlign == old(tlsAlign) && OneOfEachFile(list + freed)
      ensures p == null ==> forall d :: d in freed ==> fresh(d) && d.fromFile && IsOfFiles(fs, d)
      ensures p == null ==> forall d :: d in list ==>
                d.relocated && (d.deps == old(d.deps) || (d == named && old(d.deps) == None))
      ensures p == null ==>
                if named == null then freed == [] && (calm && !noload ==> Unfindable(fs, Want(file, head.name)))
                else LedTo(fs, Want(file, head.name), named)
                     && Tried(fs, file, noload, named, k, list + freed, WasOpened(named))
    {
      hide ListOk, SymsOk, TlsOk, IdentsOk, TlsPlaced, Opened, Tried, CanCutTo, ListLinks, SymLinks, TlsLinks,
           Unfindable, DepsListed, OneOfEachFile, LazyExtended, LedTo, IsOfFiles;
      CanCutHere();
      var origTail, origSymsTail, origTlsTail, origTlsCnt := tail, symsTail, tlsTail, tlsCnt;
      var origTlsOffset, origTlsAlign, origLazyHead := tlsOffset, tlsAlign, lazyHead;
      freed := [];
      var ok;
      p, ok, k, pushed := TryOpen(fs, file, global, lazy, noload);
      named := p;
      FilesOnce();
      ghost var tried := list;
      if !ok {
        CanBeCut();
        freed := GiveUp(origTail, origSymsTail, origTlsTail, origTlsCnt, origTlsOffset, origTlsAlign, origLazyHead,
                        old(list), old(syms), old(tls), fs, file, noload, named, k, WasOpened(named));
        assert tried[|old(list)|..] == freed;
        p := null;
      }
      assert tried == list + freed;
    }

    /** `dlopen`.  When it fails, for whatever reason and however much was loaded by then, all lists, links
        and counters are as on entry; what it may leave changed is the dependencies of one DSO. */
    method DlOpen(fs: FileSystem, file: string, global: bool, lazy: bool, noload: bool)
      returns (p: Dso?, ghost named: Dso?, ghost k: nat, ghost pushed: seq<Dso>, ghost freed: seq<Dso>)
      requires Valid() && AtRuntime()
      modifies this, ldso`prev
      modifies list`tlsNext, list`next, list`shortname, list`deps, list`symsNext, list`relocated
      ensures Valid()
      ensures p == null ==> Failed(fs, file, noload, named, k, freed)
      ensures p != null ==> p == named && freed == [] && Opened(fs, file, global, lazy, p, k, pushed)
    {
      hide ListOk, SymsOk, TlsOk, IdentsOk, TlsPlaced, Opened, Tried, ListLinks, SymLinks, TlsLinks, Unfindable,
           DepsListed, Failed, Restored, OneOfEachFile, LedTo, IsOfFiles;
      ListEnds();
      SymsEnds();
      TlsEnds();
      p, named, k, pushed, freed := OpenOrRevert(fs, file, global, lazy, noload);
      if p == null {
        RestoredHolds();
        FailedHolds((fs, file, noload, named, k, freed));
      }
    }

    /** What a caller can check first: when every DSO on the list that is an answer to the name has
        dependencies recorded, even a failure leaves a state for another call. */
    twostate lemma {:induction false} NextCallPossible(new f: (FileSystem, string, bool, Dso?, nat, seq<Dso>))
      requires old(AtRuntime()) && Failed(f.0, f.1, f.2, f.3, f.4, f.5)
      requires var fs, file := f.0, f.1;
               forall i :: 0 <= i < |old(list)| && old(Answers(fs, file, head.name, list[i])) ==>
                 old(list[i].deps).Some?
      ensures AtRuntime()
    {
      hide Answers, Tried, IsOfFiles, OneOfEachFile;
      if f.3 != null && f.3 in list {
        var i :| 0 <= i < |list| && list[i] == f.3;
        assert list[i].deps == old(list[i].deps);
      }
    }

    // -------------------------------------------------------------- many calls

    /** What the lazy list keeps to after these pushes. */
    static ghost function Kept(late: set<Dso>, pushed: seq<Dso>): set<Dso> {
      if Distinct(pushed) then late + Members(pushed) else Members(Latest(pushed))
    }

    lemma {:induction false} LinksClosed(late: set<Dso>)
      requires LinksWithin(late)
      ensures Closed(Links(late)) && (lazyHead != null ==> lazyHead in late)
    {
      forall d: Dso | d in Links(late).Values ensures d in late {
        var e :| e in late && Links(late)[e] == d;
      }
    }

    lemma {:induction false} KeptWithin(pushed: seq<Dso>, before: Dso?, late: set<Dso>)
      requires PushedOn(pushed, before) && Closed(Links(late)) && (before != null ==> before in late)
      ensures LinksWithin(Kept(late, pushed))
    {
      hide PushedOn, Distinct, LinksWithin;
      if Distinct(pushed) {
        forall d | d in late && d.lazyNext != null ensures d.lazyNext in late {
          assert Links(late)[d] in Links(late).Values;
        }
        PushedWithin(pushed, before, late);
      } else {
        var i := LastRepeat(pushed);
        LateWithin(pushed, before, i);
      }
    }

    /** Only new DSOs are pushed. */
    twostate lemma {:induction false} PushedAreNew(new o: (FileSystem, string, bool, bool, Dso, nat, seq<Dso>))
      requires Opened(o.0, o.1, o.2, o.3, o.4, o.5, o.6)
      ensures AtRuntime() && old(list) <= list && PushedOn(o.6, old(lazyHead))
      ensures o.6 == if o.3 && o.4 !in old(list) then Prepared(WithDeps(o.4), old(list)) else []
      ensures forall i :: 0 <= i < |list| ==> list[i] in old(list) || fresh(list[i])
      ensures forall d :: d in o.6 ==> d in list && fresh(d)
    {
      hide Answers, IsOfFiles, Answered, AllWants, PushedOn, LedTo, Prepared;
      var n := |old(list)|;
      forall i | 0 <= i < |list| ensures list[i] in old(list) || fresh(list[i]) {
        assert if i < n then list[i] == old(list)[i] else list[n..][i - n] in list[n..];
      }
      PreparedOnceIff([o.4] + DepsOf(o.4), old(list));
      forall d | d in o.6 ensures d in list && fresh(d) {
        assert d in [o.4] + DepsOf(o.4) && d !in old(list);
        var i :| 0 <= i < |list| && list[i] == d;
      }
    }

    twostate lemma {:induction false} NothingPushedAtAll(new f: (FileSystem, string, bool, Dso?, nat, seq<Dso>))
      requires Failed(f.0, f.1, f.2, f.3, f.4, f.5)
      ensures list == old(list) && lazyHead == old(lazyHead)
    {
      hide Answers, IsOfFiles, Tried, LedTo, OneOfEachFile;
    }

    static lemma {:induction false} KeptAlone(late: set<Dso>)
      ensures Kept(late, []) == late
    {}

    /** A call of `dlopen` and, when it commits, of `redo_lazy_relocs`.  `late` is where the lazy list keeps
        to before. */
    method OpenAndRedo(c: Call, ghost late: set<Dso>) returns (p: Dso?, ghost pushed: seq<Dso>, ghost turns: seq<Dso>)
      requires LinksWithin(late) && AtRuntime() && Valid()
      modifies this, ldso`prev, late`lazyNext, late`pending
      modifies list`tlsNext, list`next, list`shortname, list`deps, list`symsNext, list`relocated
      ensures old(list) <= list && forall i :: 0 <= i < |list| ==> list[i] in old(list) || fresh(list[i])
      // only new DSOs are pushed, each as often as it comes up
      ensures forall d :: d in pushed ==> d in list && fresh(d)
      ensures pushed == if p != null && c.lazy && p !in old(list) then Prepared(WithDeps(p), old(list)) else []
      // turns are had among the DSOs it kept to and those pushed; after a repeat, only among those pushed later
      ensures LinksWithin(Kept(late, pushed)) && forall d :: d in turns ==> d in Kept(late, pushed)
      ensures Valid() && (p != null ==> AtRuntime())
    {
      hide ListOk, SymsOk, TlsOk, IdentsOk, TlsPlaced, Opened, Failed, Kept, Prepared, PushedOn, LinksWithin, Closed;
      LinksClosed(late);
      ghost var named, k, freed;
      p, named, k, pushed, freed := DlOpen(c.fs, c.file, c.global, c.lazy, c.noload);
      turns := [];
      KeptAlone(late);
      if p == null {
        NothingPushedAtAll((c.fs, c.file, c.noload, named, k, freed));
        pushed := [];
      } else {
        PushedAreNew((c.fs, c.file, c.global, c.lazy, p, k, pushed));
        KeptWithin(pushed, old(lazyHead), late);
        KeptAmong(late, pushed);
        turns := RedoAtRuntime(Kept(late, pushed));
      }
    }

    /** `redo_lazy_relocs` changes nothing but the lazy list. */
    method RedoAtRuntime(ghost all: set<Dso>) returns (ghost turns: seq<Dso>)
      requires Valid() && AtRuntime() && LinksWithin(all)
      modifies this`lazyHead, all`lazyNext, all`pending
      ensures Valid() && AtRuntime() && LinksWithin(all) && forall d :: d in turns ==> d in all
    {
      hide ListOk, SymsOk, TlsOk, IdentsOk, TlsPlaced, AtRuntime, Follows, Chain, Pending;
      ghost var met, end;
      met, end, turns := RedoLazyRelocs(all);
    }

    /** Any number of calls, up to the first that fails, which pushes nothing and gives no turns: a DSO that
        was there before and that the lazy list has lost never has a turn again. */
    method ManyCalls(cs: seq<Call>, ghost late: set<Dso>)
      returns (done: nat, ghost now: set<Dso>, ghost turns: seq<Dso>)
      requires Valid() && AtRuntime() && LinksWithin(late)
      modifies this, ldso`prev, late`lazyNext, late`pending
      modifies list`tlsNext, list`next, list`shortname, list`deps, list`symsNext, list`relocated
      ensures Valid() && done <= |cs| && (done == |cs| ==> AtRuntime())
      ensures LinksWithin(now) && forall d :: d in now ==> d in late || fresh(d)
      ensures forall d :: d in turns ==> d in late || fresh(d)
    {
      hide ListOk, SymsOk, TlsOk, IdentsOk, TlsPlaced, Prepared, LinksWithin, AtRuntime;
      done, now, turns := 0, late, [];
      while done < |cs|
        invariant Valid() && AtRuntime() && LinksWithin(now) && done <= |cs|
        invariant forall i :: 0 <= i < |list| ==> list[i] in old(list) || fresh(list[i])
        invariant forall d :: d in now ==> d in late || fresh(d)
        invariant forall d :: d in turns ==> d in late || fresh(d)
      {
        var p;
        ghost var pushed, more;
        p, pushed, more := OpenAndRedo(cs[done], now);
        KeptAmong(now, pushed);
        now, turns := Kept(now, pushed), turns + more;
        if p == null {
          return;
        }
        done := done + 1;
      }
    }

    static lemma {:induction false} KeptAmong(late: set<Dso>, pushed: seq<Dso>)
      ensures forall d :: d in Kept(late, pushed) ==> d in late || d in pushed
    {}

    // -------------------------------------------------------------- the layout of thread-local storage

    /** The offset of a module exists as a word. */
    ghost predicate LoadableAt(i: nat)
      requires i < |tls| && forall j :: 0 <= j < |tls| ==> tls[j].tls.Some?
      reads this`tls, tls`tlsOffset
    {
      Loadable(if i == 0 then 0 else tls[i - 1].tlsOffset, tls[i].tls.value)
    }

    /** At every moment, after any loads and any failed ones: the modules on the list are laid out without
        overlap and congruent to their images exactly if every offset exists as a word. */
    lemma {:induction false} ListIsLaidOutIff()
      requires Valid() && IsPow2(minAlign)
      ensures (forall i :: 0 <= i < |tls| ==> tls[i].tls.Some?)
      ensures LaidOut(minAlign, State(tlsOffset, tlsAlign, Modules(tls)))
              <==> forall i :: 0 <= i < |tls| ==> LoadableAt(i)
    {
      hide ListOk, SymsOk, IdentsOk, TlsOk, TlsPlaced, IsPow2, Loadable, LaidOut, FirstOffset, NextOffset;
      PlacesRise();
      if forall i :: 0 <= i < |tls| ==> LoadableAt(i) {
        LoadableLaidOut(|tls|);
        assert tls[..|tls|] == tls;
      }
      if LaidOut(minAlign, State(tlsOffset, tlsAlign, Modules(tls))) {
        forall i | 0 <= i < |tls| ensures LoadableAt(i) {
          LaidOutLoadable(i);
        }
      }
    }

    lemma {:induction false} LoadableLaidOut(n: nat)
      requires TlsPlaced() && IsPow2(minAlign) && n <= |tls| && (forall i :: 0 <= i < |tls| ==> tls[i].tls.Some?)
      requires forall i :: 0 <= i < n ==> LoadableAt(i)
      ensures LaidOut(minAlign, StateAt(minAlign, Modules(tls[..n])))
    {
      hide IsPow2, Loadable, FirstOffset, NextOffset, MaxP2, Clears, Aligned, GiveRise, TlsPlaced, LaidOut, StateAt,
           Modules;
      PlacesRise();
      if n == 0 {
        assert tls[..n] == [];
        NothingLaidOut(minAlign);
      } else {
        LoadableLaidOut(n - 1);
        var before, d := tls[..n - 1], tls[n - 1];
        assert tls[..n] == before + [d] && LoadableAt(n - 1);
        PlacedAt(n - 1);
        ModulesNext(before, d);
        if n > 1 {
          ModuleAt(before, n - 2);
        }
        LoadedKeepsLayout(minAlign, tls[0] == head, Modules(before), TlsModule(d.tls.value, d.tlsOffset));
      }
    }

    lemma {:induction false} PlacedAt(i: nat)
      requires TlsPlaced() && i < |tls|
      ensures (forall j :: 0 <= j < |tls| ==> tls[j].tls.Some?) && tls[i].tlsOffset == OffsetOf(i)
    {
      hide OffsetOf, GiveRise;
    }

    lemma {:induction false} LaidOutLoadable(i: nat)
      requires TlsPlaced() && i < |tls| && (forall j :: 0 <= j < |tls| ==> tls[j].tls.Some?)
      requires LaidOut(minAlign, State(tlsOffset, tlsAlign, Modules(tls)))
      ensures LoadableAt(i)
    {
      hide FirstOffset, NextOffset, Clears, Aligned, Loadable, IsPow2, Modules, TlsPlaced;
      PlacedAt(i);
      ModuleAt(tls, i);
      if i > 0 {
        ModuleAt(tls, i - 1);
      }
      assert Clears(Below(Modules(tls), i), Modules(tls)[i]) && Aligned(tlsAlign, Modules(tls)[i]);
      PlacedLoadable(tlsAlign, if i == 0 then 0 else tls[i - 1].tlsOffset, Modules(tls)[i]);
    }

    // -------------------------------------------------------------- inputs that fail

    /** A library that needs two others which both need a fourth. */
    static predicate IsDiamond(a: Dso, b: Dso, c: Dso, d: Dso) {
      && a.needed == ["/b.so", "/c.so"] && b.needed == ["/d.so"] && c.needed == ["/d.so"] && d.needed == []
      && a.ident == Ident(1, 1) && b.ident == Ident(1, 2) && c.ident == Ident(1, 3) && d.ident == Ident(1, 4)
      && !a.bindNow && !b.bindNow && !c.bindNow && !d.bindNow
    }

    lemma {:induction false} DiamondAnswers()
      requires ldso.name == "libc.so"
      ensures forall e, r :: Answers(DIAMOND, "/a.so", r, e) <==> e.ident == Ident(1, 1)
      ensures forall e, r :: Answers(DIAMOND, "/b.so", r, e) <==> e.ident == Ident(1, 2)
      ensures forall e, r :: Answers(DIAMOND, "/c.so", r, e) <==> e.ident == Ident(1, 3)
      ensures forall e, r :: Answers(DIAMOND, "/d.so", r, e) <==> e.ident == Ident(1, 4)
    {
      hide IsSelf;
      NotSelf("/a.so");
      NotSelf("/b.so");
      NotSelf("/c.so");
      NotSelf("/d.so");
      assert "/a.so"[0] == '/' && "/b.so"[0] == '/' && "/c.so"[0] == '/' && "/d.so"[0] == '/';
    }

    static function DiamondNeeds(e: Ident): seq<string> {
      if e == Ident(1, 1) then ["/b.so", "/c.so"]
      else if e in {Ident(1, 2), Ident(1, 3)} then ["/d.so"]
      else []
    }

    static predicate OfDiamond(e: Dso) {
      && e.fromFile && !e.bindNow && e.ident in {Ident(1, 1), Ident(1, 2), Ident(1, 3), Ident(1, 4)}
      && e.needed == DiamondNeeds(e.ident)
    }

    static lemma {:induction false} DiamondFile(e: Dso)
      requires IsOfFiles(DIAMOND, e)
      ensures OfDiamond(e)
    {
      var w :| MadeFor(DIAMOND, w, e);
    }

    static lemma {:induction false} DiamondWants(s: seq<Dso>)
      requires s != [] && s[0].ident == Ident(1, 1) && OfDiamond(s[0])
      ensures var w := AllWants(s); |w| >= 2 && w[0] == Want("/b.so", s[0].name) && w[1] == Want("/c.so", s[0].name)
    {
      WantsBegin(s, 1);
      assert s[..1] == [s[0]] && [s[0]][..0] == [] && AllWants([s[0]]) == Wants(s[0], 2);
    }

    /** The fourth is wanted as often as the second and the third are there. */
    static lemma {:induction false} FourthWanted(s: seq<Dso>)
      requires s != [] && s[0].ident == Ident(1, 1) && forall i :: 0 <= i < |s| ==> OfDiamond(s[i])
      requires forall i :: 1 <= i < |s| ==> s[i].ident != Ident(1, 1)
      ensures |AllWants(s)| == 2 + |s[1..]| - Fourths(s[1..])
      ensures forall m :: 2 <= m < |AllWants(s)| ==> AllWants(s)[m].name == "/d.so"
    {
      var n := |s| - 1;
      if n == 0 {
        DiamondWants(s);
        assert s[..0] == [] && AllWants(s) == Wants(s[0], 2);
      } else {
        FourthWanted(s[..n]);
        assert s[1..][..n - 1] == s[..n][1..];
      }
    }

    static function Fourths(s: seq<Dso>): nat {
      if s == [] then 0 else Fourths(s[..|s| - 1]) + if s[|s| - 1].ident == Ident(1, 4) then 1 else 0
    }

    /** What answers what they want has to be on the list. */
    lemma {:induction false} DiamondFirst(s: seq<Dso>, found: seq<Dso>) returns (i: nat, j: nat, k: nat)
      requires ldso.name == "libc.so" && s != [] && s[0].ident == Ident(1, 1)
      requires forall i :: 0 <= i < |s| ==> OfDiamond(s[i])
      requires Answered(DIAMOND, AllWants(s), found) && forall e :: e in found ==> e in s || e.ident == Ident(0, 0)
      ensures i < |s| && s[i].ident == Ident(1, 2) && j < |s| && s[j].ident == Ident(1, 3)
      ensures k < |s| && s[k].ident == Ident(1, 4) && |found| >= 2 && found[0] == s[i] && found[1] == s[j]
    {
      hide Answers, AllWants;
      DiamondAnswers();
      DiamondWants(s);
      var w := AllWants(s);
      assert Answers(DIAMOND, w[0].name, w[0].requester, found[0]);
      assert Answers(DIAMOND, w[1].name, w[1].requester, found[1]);
      i :| 0 <= i < |s| && s[i] == found[0];
      j :| 0 <= j < |s| && s[j] == found[1];
      var m := WhereWanted(s, i, 0);
      assert Answers(DIAMOND, w[m].name, w[m].requester, found[m]);
      k :| 0 <= k < |s| && s[k] == found[m];
    }

    /** What is loaded from these files, starting with the first, are the four, in whatever order; and what
        answers their needs has the fourth twice. */
    lemma {:induction false} DiamondFound(s: seq<Dso>, found: seq<Dso>) returns (b: Dso, c: Dso, d: Dso)
      requires ldso.name == "libc.so" && s != [] && s[0].ident == Ident(1, 1) && OneOfEachFile(s)
      requires forall i :: 0 <= i < |s| ==> OfDiamond(s[i])
      requires Answered(DIAMOND, AllWants(s), found) && forall e :: e in found ==> e in s || e.ident == Ident(0, 0)
      ensures IsDiamond(s[0], b, c, d) && found == [b, c, d, d] && b in s && c in s && d in s
    {
      hide Answers, AllWants;
      var i, j, k := DiamondFirst(s, found);
      b, c, d := s[i], s[j], s[k];
      IdentsFit(s, {Ident(1, 1), Ident(1, 2), Ident(1, 3), Ident(1, 4)});
      assert |s| == 4 && Fourths(s[1..]) == 1 by {
        OneFourth(s[1..], k - 1);
      }
      FourthWanted(s);
      DiamondAnswers();
      var w := AllWants(s);
      assert Answers(DIAMOND, w[2].name, w[2].requester, found[2]);
      assert Answers(DIAMOND, w[3].name, w[3].requester, found[3]);
      OnlyOne(s, found[2], d);
      OnlyOne(s, found[3], d);
    }

    static lemma {:induction false} OneFourth(s: seq<Dso>, k: nat)
      requires k < |s| && forall i :: 0 <= i < |s| ==> (s[i].ident == Ident(1, 4) <==> i == k)
      ensures Fourths(s) == 1
    {
      var n := |s| - 1;
      if k < n {
        OneFourth(s[..n], k);
      } else {
        NoFourth(s[..n]);
      }
    }

    static lemma {:induction false} NoFourth(s: seq<Dso>)
      requires forall i :: 0 <= i < |s| ==> s[i].ident != Ident(1, 4)
      ensures Fourths(s) == 0
    {
      if s != [] {
        NoFourth(s[..|s| - 1]);
      }
    }

    static lemma {:induction false} OnlyOne(s: seq<Dso>, d: Dso, e: Dso)
      requires OneOfEachFile(s) && d in s && e in s && d.fromFile && e.fromFile && d.ident == e.ident
      ensures d == e
    {
      var i, j :| 0 <= i < |s| && s[i] == d && 0 <= j < |s| && s[j] == e;
    }

    /** A program with nothing loaded but the linker. */
    ghost predicate Bare()
      reads this`list, this`head
    {
      list == [head, ldso] && head.ident == ldso.ident == Ident(0, 0) && ldso.name == "libc.so"
    }

    /** What opening it loads. */
    twostate lemma {:induction false} DiamondLoaded(new o: (Dso, nat, seq<Dso>))
      requires old(Bare()) && list != [] && list[0] == head
      requires Opened(DIAMOND, "/a.so", true, true, o.0, o.1, o.2)
      ensures |list| > 2 && list[2] == o.0 && o.0.ident == Ident(1, 1) && o.0.deps.Some? && o.0 !in old(list)
      ensures forall i :: 2 <= i < |list| ==> OfDiamond(list[i]) && list[i] !in old(list)
      ensures forall e :: e in o.0.deps.value ==> e in list[2..] || e.ident == Ident(0, 0)
      ensures Answered(DIAMOND, AllWants(list[2..]), o.0.deps.value)
      ensures o.2 == Prepared([o.0] + o.0.deps.value, old(list))
    {
      hide Answered, AllWants, PushedOn, LedTo, Answers, IsOfFiles, Prepared, OfDiamond;
      var a, k := o.0, o.1;
      DiamondAnswers();
      assert list[..2] == old(list);
      forall i | 2 <= i < |list| ensures OfDiamond(list[i]) && list[i] !in old(list) {
        assert list[i] == list[2..][i - 2];
        DiamondFile(list[i]);
      }
      assert k == 2;
      forall e | e in a.deps.value ensures e in list[2..] || e.ident == Ident(0, 0) {
        var i :| 0 <= i < |list| && list[i] == e;
        assert i >= 2 ==> list[2..][i - 2] == e;
        assert i < 2 ==> e == old(list)[i];
      }
    }

    /** Dependencies with a repeat, and so on the lazy list. */
    twostate lemma {:induction false} DiamondOpened(new o: (Dso, nat, seq<Dso>)) returns (b: Dso, c: Dso, d: Dso)
      requires old(Bare()) && list != [] && list[0] == head && OneOfEachFile(list)
      requires Opened(DIAMOND, "/a.so", true, true, o.0, o.1, o.2)
      ensures IsDiamond(o.0, b, c, d) && o.0.deps == Some([b, c, d, d]) && o.2 == [o.0, b, c, d, d]
    {
      hide Answered, AllWants, Opened, OfDiamond, Prepared;
      DiamondLoaded(o);
      var a, s := o.0, list[2..];
      b, c, d := DiamondFound(s, a.deps.value);
      forall e | e in s ensures e !in old(list) {
        var i :| 0 <= i < |s| && s[i] == e;
        assert list[i + 2] == e;
      }
      AllPrepared([a, b, c, d, d], old(list));
      assert [a] + [b, c, d, d] == [a, b, c, d, d];
    }

    static lemma {:induction false} FourthComesAgain(a: Dso, b: Dso, c: Dso, d: Dso)
      ensures var pushed := [a, b, c, d, d];
              IsLastRepeat(pushed, 3) && d in pushed && Members(pushed[4..]) == {d}
    {
      var pushed := [a, b, c, d, d];
      assert pushed[4..] == [d] && pushed[5..] == [];
    }

    /** Opening it leads the lazy list round the fourth. */
    method OpenDiamond() returns (a: Dso?, ghost b: Dso?, ghost c: Dso?, ghost d: Dso?)
      requires Valid() && AtRuntime() && Bare()
      modifies this, ldso`prev
      modifies list`tlsNext, list`next, list`shortname, list`deps, list`symsNext, list`relocated
      ensures Valid() && forall i :: 0 <= i < |list| ==> list[i] in old(list) || fresh(list[i])
      ensures a != null ==>
                && AtRuntime() && b != null && c != null && d != null && IsDiamond(a, b, c, d)
                && a.deps == Some([b, c, d, d]) && fresh(d) && lazyHead == d && LinksWithin({d})
    {
      hide Opened, Failed, ListOk, SymsOk, TlsOk, IdentsOk, TlsPlaced, OneOfEachFile, AtRuntime, Prepared, PushedOn,
           LinksWithin, IsLastRepeat;
      ghost var named, k, pushed, freed;
      b, c, d := null, null, null;
      a, named, k, pushed, freed := DlOpen(DIAMOND, "/a.so", true, true, false);
      if a != null {
        FilesOnce();
        ListEnds();
        PushedAreNew((DIAMOND, "/a.so", true, true, a, k, pushed));
        ghost var b', c', d' := DiamondOpened((a, k, pushed));
        b, c, d := b', c', d';
        FourthComesAgain(a, b', c', d');
        LateWithin(pushed, old(lazyHead), 3);
      } else {
        NothingPushedAtAll((DIAMOND, "/a.so", false, named, k, freed));
      }
    }

    /** Only the fourth has another turn; the other three have none, whatever is opened later. */
    method DiamondIsLost(cs: seq<Call>)
      returns (a: Dso?, ghost b: Dso?, ghost c: Dso?, ghost d: Dso?, ghost turns: seq<Dso>, ghost later: seq<Dso>)
      requires Valid() && AtRuntime() && Bare()
      modifies this, ldso`prev
      modifies list`tlsNext, list`next, list`shortname, list`deps, list`symsNext, list`relocated
      ensures Valid()
      ensures a != null ==> b != null && c != null && d != null && IsDiamond(a, b, c, d)
      ensures a != null ==> turns != [] && forall e :: e in turns ==> e == d
      ensures a != null ==> a !in later && b !in later && c !in later
    {
      hide ListOk, SymsOk, TlsOk, IdentsOk, TlsPlaced, AtRuntime, Follows, Chain, Pending, LinksWithin;
      turns, later := [], [];
      a, b, c, d := OpenDiamond();
      if a != null {
        ghost var met, end, done, now;
        ghost var links := Links({d});
        met, end, turns := RedoLazyRelocs({d});
        SomebodyMet(links, d, met, end);
        done, now, later := ManyCalls(cs, {d});
      }
    }

    static lemma {:induction false} SomebodyMet(links: map<Dso, Dso?>, start: Dso, met: seq<Dso>, end: Dso?)
      requires Follows(Round(links, start, met), end) && (end == null || end in met)
      ensures met != []
    {}

    /** A library that needs two more. */
    predicate OneMissing(s: Dso) {
      && calm && ldso.name == "libc.so" && ldso.ident == Ident(0, 0)
      && s.fromFile && s.name == "/s.so" && s.ident == Ident(1, 1) && s.needed == ["/x.so", "/m.so"]
    }

    /** A program that started with it and with what it needed then. */
    ghost predicate Started(s: Dso)
      reads this`list, this`head, s`deps
    {
      && OneMissing(s) && |list| >= 3 && list[..3] == [head, ldso, s] && head.name == "app" && head.ident == Ident(0, 0)
      && s.deps == None && forall i :: 3 <= i < |list| ==> list[i].fromFile && list[i].ident != Ident(1, 2)
    }

    lemma {:induction false} NotSelf(name: string)
      requires name != [] && name[0] == '/' && ldso.name == "libc.so"
      ensures !IsSelf(name)
    {
      if |name| >= 3 {
        assert name[..3][0] == '/' && "lib"[0] == 'l';
      }
      assert "libc.so"[0] == 'l';
    }

    lemma {:induction false} WhereItLeads(s: Dso)
      requires OneMissing(s)
      ensures !Unfindable(ONE_MISSING, Want("/s.so", "app")) && !Unfindable(ONE_MISSING, Want("/x.so", "/s.so"))
      ensures forall d :: Answers(ONE_MISSING, "/s.so", "app", d) ==> d.ident == s.ident
      ensures forall d :: Answers(ONE_MISSING, "/x.so", "/s.so", d) ==> d.ident == Ident(1, 2)
      ensures forall d :: !Answers(ONE_MISSING, "/m.so", "/s.so", d)
    {
      hide IsSelf;
      NotSelf("/s.so");
      NotSelf("/x.so");
      NotSelf("/m.so");
      assert "/s.so"[0] == '/' && "/x.so"[0] == '/' && "/m.so"[0] == '/';
    }

    lemma {:induction false} WhatItWants(s: Dso, rest: seq<Dso>)
      requires OneMissing(s)
      ensures |AllWants([s] + rest)| >= 2 && AllWants([s] + rest)[0] == Want("/x.so", "/s.so")
      ensures AllWants([s] + rest)[1] == Want("/m.so", "/s.so")
    {
      WantsBegin([s] + rest, 1);
      assert ([s] + rest)[..1] == [s] && [s][..0] == [];
      assert AllWants([s]) == AllWants([]) + Wants(s, 2);
    }

    /** A DSO that answers its name is the DSO itself. */
    lemma {:induction false} ItIsFound(s: Dso, all: seq<Dso>, d: Dso, k: nat)
      requires |all| >= 3 && all[..3] == [head, ldso, s] && OneOfEachFile(all)
      requires forall i :: 3 <= i < |all| ==> all[i].fromFile
      requires s.fromFile && head.ident != s.ident && ldso.ident != s.ident
      requires k < |all| && all[k] == d && d.ident == s.ident
      ensures d == s && k == 2 && all[k..] == [s] + all[3..]
    {
      assert all[0] == all[..3][0] && all[1] == all[..3][1] && all[2] == all[..3][2];
    }

    twostate lemma {:induction false} CannotSucceed(s: Dso, new o: (Dso, nat, seq<Dso>))
      requires old(Started(s)) && list != [] && list[0] == head && OneOfEachFile(list)
      ensures !Opened(ONE_MISSING, "/s.so", false, false, o.0, o.1, o.2)
    {
      hide Answers, OneOfEachFile, Unfindable, AllWants, LazyExtended, AtRuntime;
      var p, k := o.0, o.1;
      if Opened(ONE_MISSING, "/s.so", false, false, p, k, o.2) {
        WhereItLeads(s);
        WhatItWants(s, list[3..]);
        assert list[..3] == old(list)[..3];
        assert forall i :: |old(list)| <= i < |list| ==> list[i] == list[|old(list)|..][i - |old(list)|];
        ItIsFound(s, list, p, k);
      }
    }

    twostate lemma {:induction false} Dangles(s: Dso, new o: (Dso?, nat, seq<Dso>))
      requires old(Started(s)) && Failed(ONE_MISSING, "/s.so", false, o.0, o.1, o.2)
      ensures s.deps.Some? && s.deps.value != [] && s.deps.value[0] !in list && !AtRuntime()
    {
      hide Answers, OneOfEachFile, Unfindable, AllWants, AtRuntime;
      var named, k, freed := o.0, o.1, o.2;
      var all := list + freed;
      WhereItLeads(s);
      WhatItWants(s, all[3..]);
      assert all[..3] == list[..3];
      assert forall i :: |list| <= i < |all| ==> all[i] == freed[i - |list|];
      ItIsFound(s, all, named, k);
      var found := DepsOf(s);
      assert found != [];
      assert Answers(ONE_MISSING, "/x.so", "/s.so", found[0]);
      assert found[0] !in list;
    }

    /** A failed `dlopen` after which there cannot be another.  It names a library that is there from startup,
        while of what it needs one file has been replaced and the other removed: the library keeps the
        dependencies recorded so far, and the first of them is gone. */
    method FailureLeavesDangling(s: Dso)
      requires Valid() && AtRuntime() && Started(s)
      modifies this, ldso`prev
      modifies list`tlsNext, list`next, list`shortname, list`deps, list`symsNext, list`relocated
      ensures Valid() && s in list && s.deps.Some? && s.deps.value != [] && s.deps.value[0] !in list
      ensures !AtRuntime()
    {
      hide Opened, Failed, ListOk, SymsOk, TlsOk, IdentsOk, TlsPlaced, OneOfEachFile, AtRuntime, ListLinks;
      var p, named, k, pushed, freed := DlOpen(ONE_MISSING, "/s.so", false, false, false);
      FilesOnce();
      ListEnds();
      if p != null {
        CannotSucceed(s, (p, k, pushed));
        assert false;
      }
      SameList((named, k, freed));
      Dangles(s, (named, k, freed));
    }

    /** A library loaded and relocated at startup. */
    method StartLibrary(f: File) returns (d: Dso)
      requires Valid() && ldso in list && forall i :: 0 <= i < |list| && list[i].fromFile ==> list[i].ident != f.ident
      modifies this, list`tlsNext, list`next
      ensures Valid() && list == old(list) + [d] && head == old(head)
      ensures fresh(d) && d.fromFile && d.name == f.path && d.ident == f.ident && d.needed == f.needed
      ensures d.relocated && d.deps == None
    {
      hide ListOk, SymsOk, TlsOk, IdentsOk, TlsPlaced, NextOffset, MaxP2, ListLinks, TlsLinks;
      ListEnds();
      TlsEnds();
      d := new Dso(f, None);
      d.relocated := true;
      Install(d);
      ListEnds();
    }

    twostate lemma {:induction false} SameList(new o: (Dso?, nat, seq<Dso>))
      requires Failed(ONE_MISSING, "/s.so", false, o.0, o.1, o.2)
      ensures list == old(list)
    {}
  }

  function Plain(path: string, ino: nat, needed: seq<string>): File {
    File(path, Ident(1, ino), needed, None, false, false)
  }

  const DIAMOND := FileSystem(map["/a.so" := Plain("/a.so", 1, ["/b.so", "/c.so"]),
                                  "/b.so" := Plain("/b.so", 2, ["/d.so"]),
                                  "/c.so" := Plain("/c.so", 3, ["/d.so"]), "/d.so" := Plain("/d.so", 4, [])], map[])

  /** The files as they are after a program has started with `/s.so`: the first that it needs is another file
      than before, and the next is gone. */
  const ONE_MISSING := FileSystem(map["/s.so" := S_FILE, "/x.so" := Plain("/x.so", 2, [])], map[])
  const S_FILE := Plain("/s.so", 1, ["/x.so", "/m.so"])

  /** A program that needs nothing, and the linker. */
  method Begin() returns (l: Linker)
    ensures l.Valid() && l.calm && l.list == [l.head, l.ldso] && fresh(l) && fresh(l.head) && fresh(l.ldso)
    ensures !l.head.fromFile && !l.ldso.fromFile && l.ldso.name == "libc.so"
    ensures l.head.name == "app" && l.head.ident == l.ldso.ident == Ident(0, 0)
    ensures l.head.deps == Some([]) && l.ldso.deps == None && l.head.relocated && l.ldso.relocated
    ensures l.AtRuntime() && l.Bare()
  {
    hide Linker.ListOk, Linker.SymsOk, Linker.TlsOk, Linker.IdentsOk, Linker.TlsPlaced;
    var app := new Dso.Static("app", None, [], false, None);
    app.relocated, app.deps := true, Some([]);
    var ldso := new Dso.Static("libc.so", Some("libc.so"), [], false, None);
    ldso.relocated := true;
    l := new Linker(app, ldso, 16, true);
    l.ListEnds();
    l.AppendSelf();
    l.ListEnds();
  }

  method BeginWith() returns (l: Linker, s: Dso)
    ensures l.Valid() && l.list == [l.head, l.ldso, s] && fresh(l) && fresh(l.head) && fresh(l.ldso) && fresh(s)
    ensures l.Started(s) && l.AtRuntime() && !l.head.fromFile && !l.ldso.fromFile
  {
    hide Linker.ListOk, Linker.SymsOk, Linker.TlsOk, Linker.IdentsOk, Linker.TlsPlaced;
    l := Begin();
    s := l.StartLibrary(S_FILE);
  }

  /** The program has started with `/s.so` and what that needed then. */
  method StartWith() returns (l: Linker, s: Dso)
    ensures l.Valid() && l.AtRuntime() && l.Started(s)
  {
    hide Linker.ListOk, Linker.SymsOk, Linker.TlsOk, Linker.IdentsOk, Linker.TlsPlaced, Distinct;
    l, s := BeginWith();
    var x := l.StartLibrary(Plain("/x.so", 3, []));
    var m := l.StartLibrary(Plain("/m.so", 4, []));
    assert l.list == [l.head, l.ldso, s, x, m];
  }
}
