/** How running threads obtain TLS of libraries loaded after they started (`__tls_get_new`), as a
    protocol over atomic steps of any number of threads, interleaved with `dlopen`, with thread
    creation and with thread exit. */
module TlsProtocol {
  import opened Words
  import TlsStorage

  type Tid = nat

  /** What a DTV entry points to: nothing, the block a thread was created with, or slot `idx` of the
      TLS memory reserved by module `id`. */
  datatype Entry = Null | Initial | Slot(id: nat, idx: nat)

  /** Where the DTV itself lives: with the thread, or in slot `idx` of what module `id` reserved. */
  datatype Home = Own | Reserved(id: nat, idx: nat)

  /** `entries[i]` for 1 <= i <= dtv[0]; `entries[0]` stands for the count itself, |entries| - 1. */
  datatype Dtv = Dtv(home: Home, entries: seq<Entry>)

  /** Where a thread is in `__tls_get_new(v)`: outside, about to take a DTV, or filling entries at
      position `pos` of the load list. */
  datatype Pc = Idle | NeedDtv(v: nat) | Fill(v: nat, pos: nat)

  datatype Thread = Thread(pc: Pc, dtv: Dtv)

  /** A DSO on the load list: its `tls_id` (0 without TLS), the threads its reservation counts for,
      and the two hand-out counters.  `alive`, `dtvLog` and `tlsLog` are history: the threads that
      existed at the load, and who received each slot. */
  datatype Lib = Lib(id: nat, nTh: nat, dtvIdx: nat, tlsIdx: nat,
                     alive: set<Tid>, dtvLog: seq<Tid>, tlsLog: seq<Tid>)

  /** `counter` is `libc.threads_minus_1`, of which `failing` belong to clones that failed and are not
      yet undone; `visible` is `libc.tls_cnt`; a `dlopen` in progress owns `list[committed..]`. */
  datatype State = State(list: seq<Lib>, committed: nat, visible: nat, loading: bool,
                         threads: map<Tid, Thread>, nextTid: Tid, counter: nat, failing: nat)

  /** The number of modules with TLS, which is `tls_cnt`. */
  function TlsCount(list: seq<Lib>): nat {
    if list == [] then 0 else TlsCount(list[..|list| - 1]) + if list[|list| - 1].id > 0 then 1 else 0
  }

  /** A thread starts with a DTV that covers `libc.tls_cnt` modules. */
  function InitialDtv(n: nat): Dtv {
    Dtv(Own, seq(n + 1, i => Initial))
  }

  // ---------------------------------------------------------------- steps

  /** `__inhibit_ptc` and the start of a `dlopen`. */
  ghost predicate BeginLoad(s: State, s': State) {
    !s.loading && s' == s.(loading := true)
  }

  /** `load_library` appends a new DSO. */
  ghost predicate LoadLib(s: State, s': State, tls: bool) {
    && s.loading
    && var id := if tls then TlsCount(s.list) + 1 else 0;
       s' == s.(list := s.list + [Lib(id, s.counter + 1, 0, 0, s.threads.Keys, [], [])])
  }

  ghost predicate Commit(s: State, s': State) {
    && s.loading
    && s' == s.(committed := |s.list|, visible := TlsCount(s.list), loading := false)
  }

  ghost predicate Abort(s: State, s': State) {
    && s.loading && s.committed <= |s.list|
    && s' == s.(list := s.list[..s.committed], loading := false)
  }

  ghost predicate Create(s: State, s': State) {
    && !s.loading
    && s' == s.(threads := s.threads[s.nextTid := Thread(Idle, InitialDtv(s.visible))],
                nextTid := s.nextTid + 1, counter := s.counter + 1)
  }

  /** `clone` fails after the counter was raised ... */
  ghost predicate CloneFails(s: State, s': State) {
    !s.loading && s' == s.(counter := s.counter + 1, failing := s.failing + 1)
  }

  /** ... and the counter is lowered later, after `__release_ptc`. */
  ghost predicate CloneUndone(s: State, s': State) {
    s.failing > 0 && s.counter > 0 && s' == s.(counter := s.counter - 1, failing := s.failing - 1)
  }

  /** A thread that is not the last one exits; its signals stay blocked from then on. */
  ghost predicate Exit(s: State, s': State, t: Tid) {
    && t in s.threads && s.threads[t].pc == Idle && s.counter > 0
    && s' == s.(threads := s.threads - {t}, counter := s.counter - 1)
  }

  ghost function WithThread(s: State, t: Tid, th: Thread): State {
    s.(threads := s.threads[t := th])
  }

  /** A thread asks for module `v`; it already has it if dtv[0] reaches that far. */
  ghost predicate Access(s: State, s': State, t: Tid, v: nat) {
    && t in s.threads && s.threads[t].pc == Idle && 1 <= v <= s.visible
    && var th := s.threads[t];
       s' == if v < |th.dtv.entries| then s else WithThread(s, t, th.(pc := NeedDtv(v)))
  }

  function Extend(d: Dtv, home: Home, v: nat): Dtv
    requires |d.entries| <= v
  {
    Dtv(home, d.entries + seq(v + 1 - |d.entries|, i => Null))
  }

  /** `a_fetch_add(&p->new_dtv_idx, 1)` on the module asked for, and the copy into the new DTV. */
  ghost predicate TakeDtv(s: State, s': State, t: Tid, p: nat) {
    && t in s.threads && s.threads[t].pc.NeedDtv? && p < |s.list|
    && var th := s.threads[t];
       var v := th.pc.v;
       var lib := s.list[p];
       && lib.id == v && |th.dtv.entries| <= v
       && s' == WithThread(s, t, Thread(Fill(v, 0), Extend(th.dtv, Reserved(v, lib.dtvIdx), v)))
                .(list := s.list[p := lib.(dtvIdx := lib.dtvIdx + 1, dtvLog := lib.dtvLog + [t])])
  }

  /** One iteration of the loop that fills entries: skip the DSO, or take its next TLS slot. */
  ghost predicate FillStep(s: State, s': State, t: Tid) {
    && t in s.threads && s.threads[t].pc.Fill?
    && var th := s.threads[t];
       var Fill(v, pos) := th.pc;
       && pos < |s.list|
       && var lib := s.list[pos];
          && lib.id < |th.dtv.entries|
          && if lib.id == 0 || th.dtv.entries[lib.id] != Null then
               s' == WithThread(s, t, th.(pc := Fill(v, pos + 1)))
             else
               var dtv := th.dtv.(entries := th.dtv.entries[lib.id := Slot(lib.id, lib.tlsIdx)]);
               s' == WithThread(s, t, Thread(if lib.id == v then Idle else Fill(v, pos + 1), dtv))
                     .(list := s.list[pos := lib.(tlsIdx := lib.tlsIdx + 1, tlsLog := lib.tlsLog + [t])])
  }

  ghost predicate Next(s: State, s': State) {
    || BeginLoad(s, s') || Commit(s, s') || Abort(s, s')
    || (exists tls :: LoadLib(s, s', tls))
    || Create(s, s') || CloneFails(s, s') || CloneUndone(s, s')
    || (exists t :: Exit(s, s', t))
    || (exists t, v :: Access(s, s', t, v))
    || (exists t, p :: TakeDtv(s, s', t, p))
    || (exists t :: FillStep(s, s', t))
  }

  /** The program starts: one thread, whose DTV covers every module loaded so far; nothing reserved. */
  ghost predicate Init(s: State) {
    && s.committed == |s.list| && s.visible == TlsCount(s.list) && !s.loading
    && (forall i :: 0 <= i < |s.list| ==> IdInOrder(s.list, i))
    && (forall i :: 0 <= i < |s.list| ==>
          var l := s.list[i]; l.dtvIdx == l.tlsIdx == 0 && l.alive == {} && l.dtvLog == l.tlsLog == [])
    && s.threads == map[0 := Thread(Idle, InitialDtv(s.visible))] && s.nextTid == 1
    && s.counter == 0 && s.failing == 0
  }

  ghost predicate IsRun(run: seq<State>) {
    && |run| > 0 && Init(run[0])
    && forall i :: 0 <= i < |run| - 1 ==> Next(run[i], run[i + 1])
  }

  // ---------------------------------------------------------------- the invariant

  /** Identifiers are handed out in list order. */
  ghost predicate IdInOrder(list: seq<Lib>, i: nat)
    requires i < |list|
  {
    list[i].id == 0 || list[i].id == TlsCount(list[..i]) + 1
  }

  ghost predicate NoRepeats(log: seq<Tid>) {
    forall i, j :: 0 <= i < j < |log| ==> log[i] != log[j]
  }

  /** Who may have taken slots: only threads that were alive at the load, each once, below `n_th`. */
  ghost predicate LibOk(lib: Lib, next: Tid) {
    && lib.dtvIdx == |lib.dtvLog| && lib.tlsIdx == |lib.tlsLog|
    && |lib.alive| <= lib.nTh
    && NoRepeats(lib.dtvLog) && NoRepeats(lib.tlsLog)
    && (forall t :: t in lib.dtvLog || t in lib.tlsLog ==> t in lib.alive)
    && (forall t :: t in lib.alive ==> t < next)
  }

  ghost predicate ListOk(s: State) {
    && s.committed <= |s.list|
    && s.visible == TlsCount(s.list[..s.committed])
    && (!s.loading ==> s.committed == |s.list|)
    && (forall i :: 0 <= i < |s.list| ==> IdInOrder(s.list, i))
    && (forall i :: 0 <= i < |s.list| ==> LibOk(s.list[i], s.nextTid))
  }

  ghost predicate EntryOwned(lib: Lib, t: Tid, e: Entry) {
    e.Slot? ==> e.id == lib.id && e.idx < |lib.tlsLog| && lib.tlsLog[e.idx] == t
  }

  /** What a thread's DTV says about one module, and what the module's records say about the thread. */
  ghost predicate Agrees(lib: Lib, t: Tid, th: Thread) {
    lib.id > 0 ==>
      && (lib.id >= |th.dtv.entries| ==> t in lib.alive && t !in lib.dtvLog && t !in lib.tlsLog)
      && (lib.id < |th.dtv.entries| ==>
            && EntryOwned(lib, t, th.dtv.entries[lib.id])
            && (th.dtv.entries[lib.id] == Null ==> t in lib.alive && t !in lib.tlsLog))
      && (th.dtv.home.Reserved? && th.dtv.home.id == lib.id ==>
            th.dtv.home.idx < |lib.dtvLog| && lib.dtvLog[th.dtv.home.idx] == t)
  }

  ghost predicate PcOk(s: State, th: Thread) {
    var es := th.dtv.entries;
    && 1 <= |es| <= s.visible + 1
    && (th.dtv.home.Reserved? ==> 1 <= th.dtv.home.id && |es| == th.dtv.home.id + 1)
    && match th.pc
       case Idle => forall m :: 1 <= m < |es| ==> es[m] != Null
       case NeedDtv(v) => |es| <= v <= s.visible && forall m :: 1 <= m < |es| ==> es[m] != Null
       case Fill(v, pos) =>
         && 1 <= v <= s.visible && |es| == v + 1 && es[v] == Null && pos <= |s.list| && TlsCount(s.list[..pos]) < v
         && forall m :: 1 <= m <= TlsCount(s.list[..pos]) ==> es[m] != Null
  }

  ghost predicate ThreadsOk(s: State) {
    && |s.threads| + s.failing == s.counter + 1
    && forall t :: t in s.threads ==>
         && t < s.nextTid && PcOk(s, s.threads[t])
         && forall i :: 0 <= i < |s.list| ==> Agrees(s.list[i], t, s.threads[t])
  }

  ghost predicate Inv(s: State) {
    ListOk(s) && ThreadsOk(s)
  }

  // ---------------------------------------------------------------- counting modules

  lemma {:induction false} TlsCountMono(list: seq<Lib>, i: nat, j: nat)
    requires i <= j <= |list|
    ensures TlsCount(list[..i]) <= TlsCount(list[..j])
  {
    if i < j {
      TlsCountMono(list, i, j - 1);
      assert list[..j][..j - 1] == list[..j - 1];
    }
  }

  lemma TlsCountStep(list: seq<Lib>, i: nat)
    requires i < |list|
    ensures TlsCount(list[..i + 1]) == TlsCount(list[..i]) + if list[i].id > 0 then 1 else 0
  {
    assert list[..i + 1][..i] == list[..i];
  }

  /** The counts depend on the identifiers alone. */
  lemma {:induction false} TlsCountSameIds(a: seq<Lib>, b: seq<Lib>)
    requires |a| == |b| && forall i :: 0 <= i < |a| ==> a[i].id == b[i].id
    ensures TlsCount(a) == TlsCount(b)
  {
    if a != [] {
      TlsCountSameIds(a[..|a| - 1], b[..|b| - 1]);
    }
  }

  lemma UpdateKeepsCounts(list: seq<Lib>, p: nat, lib: Lib)
    requires p < |list| && lib.id == list[p].id
    ensures forall i :: 0 <= i <= |list| ==> TlsCount(list[p := lib][..i]) == TlsCount(list[..i])
  {
    forall i | 0 <= i <= |list|
      ensures TlsCount(list[p := lib][..i]) == TlsCount(list[..i])
    {
      TlsCountSameIds(list[p := lib][..i], list[..i]);
    }
  }

  /** Every module number up to the count belongs to a DSO on the list. */
  lemma {:induction false} Locate(list: seq<Lib>, n: nat, m: nat) returns (p: nat)
    requires n <= |list| && 1 <= m <= TlsCount(list[..n])
    requires forall i :: 0 <= i < |list| ==> IdInOrder(list, i)
    ensures p < n && list[p].id == m
  {
    TlsCountStep(list, n - 1);
    assert IdInOrder(list, n - 1);
    if m <= TlsCount(list[..n - 1]) {
      p := Locate(list, n - 1, m);
    } else {
      p := n - 1;
    }
  }

  lemma IdsIncrease(list: seq<Lib>, i: nat, j: nat)
    requires i < j < |list| && list[i].id > 0 && list[j].id > 0
    requires IdInOrder(list, i) && IdInOrder(list, j)
    ensures list[i].id < list[j].id
  {
    TlsCountStep(list, i);
    TlsCountMono(list, i + 1, j);
  }

  lemma IdBound(list: seq<Lib>, i: nat, n: nat)
    requires i < n <= |list| && IdInOrder(list, i)
    ensures list[i].id <= TlsCount(list[..n])
  {
    TlsCountStep(list, i);
    TlsCountMono(list, i + 1, n);
  }

  /** A log without repeats is no longer than the set its names come from. */
  lemma {:induction false} LogFits(log: seq<Tid>, alive: set<Tid>)
    requires NoRepeats(log) && forall t :: t in log ==> t in alive
    ensures |log| <= |alive|
  {
    if log != [] {
      var n := |log| - 1;
      var t := log[n];
      assert t in log;
      forall u | u in log[..n] ensures u in alive - {t} {
        assert u in log;
      }
      LogFits(log[..n], alive - {t});
    }
  }

  lemma LogGrows(log: seq<Tid>, t: Tid)
    requires NoRepeats(log) && t !in log
    ensures NoRepeats(log + [t])
    ensures forall u :: u in log + [t] <==> u in log || u == t
  {}

  // ---------------------------------------------------------------- every step keeps the invariant

  lemma InitInv(s: State)
    requires Init(s)
    ensures Inv(s)
  {
    assert s.list[..s.committed] == s.list;
    forall i | 0 <= i < |s.list|
      ensures Agrees(s.list[i], 0, s.threads[0])
    {
      IdBound(s.list, i, |s.list|);
    }
  }

  lemma LoadLibInv(s: State, s': State, tls: bool)
    requires Inv(s) && LoadLib(s, s', tls)
    ensures Inv(s')
  {
    var n := |s.list|;
    assert s'.list[..n] == s.list;
    assert s'.list[..s.committed] == s.list[..s.committed];
    forall i | 0 <= i < |s'.list|
      ensures IdInOrder(s'.list, i) && LibOk(s'.list[i], s'.nextTid)
    {
      if i < n {
        assert s'.list[..i] == s.list[..i];
        assert IdInOrder(s.list, i) && LibOk(s.list[i], s.nextTid);
      } else {
        assert |s.threads.Keys| == |s.threads|;
      }
    }
    assert s.list[..n] == s.list;
    TlsCountMono(s.list, s.committed, n);
    forall t | t in s'.threads
      ensures PcOk(s', s'.threads[t])
      ensures forall i :: 0 <= i < |s'.list| ==> Agrees(s'.list[i], t, s'.threads[t])
    {
      assert PcOk(s, s.threads[t]);
      if s.threads[t].pc.Fill? {
        assert s'.list[..s.threads[t].pc.pos] == s.list[..s.threads[t].pc.pos];
      }
      forall i | 0 <= i < |s'.list| ensures Agrees(s'.list[i], t, s'.threads[t]) {
        if i < n {
          assert Agrees(s.list[i], t, s.threads[t]);
        }
      }
    }
  }

  lemma CommitInv(s: State, s': State)
    requires Inv(s) && Commit(s, s')
    ensures Inv(s')
  {
    assert s.list[..|s.list|] == s.list;
    TlsCountMono(s.list, s.committed, |s.list|);
    forall t | t in s'.threads
      ensures PcOk(s', s'.threads[t])
    {
      assert PcOk(s, s.threads[t]);
    }
  }

  lemma AbortInv(s: State, s': State)
    requires Inv(s) && Abort(s, s')
    ensures Inv(s')
  {
    assert s'.list[..s.committed] == s.list[..s.committed];
    forall i | 0 <= i < |s'.list|
      ensures IdInOrder(s'.list, i)
    {
      assert s'.list[..i] == s.list[..i] && IdInOrder(s.list, i);
    }
    forall t | t in s'.threads
      ensures PcOk(s', s'.threads[t])
      ensures forall i :: 0 <= i < |s'.list| ==> Agrees(s'.list[i], t, s'.threads[t])
    {
      assert PcOk(s, s.threads[t]);
      if s.threads[t].pc.Fill? {
        var pos := s.threads[t].pc.pos;
        if s.committed <= pos {
          TlsCountMono(s.list, s.committed, pos);
        }
        assert s'.list[..pos] == s.list[..pos];
      }
      forall i | 0 <= i < |s'.list| ensures Agrees(s'.list[i], t, s'.threads[t]) {
        assert Agrees(s.list[i], t, s.threads[t]);
      }
    }
  }

  lemma CreateInv(s: State, s': State)
    requires Inv(s) && Create(s, s')
    ensures Inv(s')
  {
    var t := s.nextTid;
    assert s.list[..|s.list|] == s.list;
    assert t !in s.threads;
    assert forall i :: 0 <= i < |s.list| ==> LibOk(s.list[i], s.nextTid) && LibOk(s.list[i], s'.nextTid);
    forall u | u in s'.threads
      ensures u < s'.nextTid && PcOk(s', s'.threads[u])
      ensures forall i :: 0 <= i < |s'.list| ==> Agrees(s'.list[i], u, s'.threads[u])
    {
      if u == t {
        forall i | 0 <= i < |s.list| ensures Agrees(s.list[i], t, s'.threads[t]) {
          IdBound(s.list, i, |s.list|);
        }
      } else {
        assert PcOk(s, s.threads[u]);
        assert forall i :: 0 <= i < |s.list| ==> Agrees(s.list[i], u, s.threads[u]);
      }
    }
  }

  lemma ExitInv(s: State, s': State, t: Tid)
    requires Inv(s) && Exit(s, s', t)
    ensures Inv(s')
  {
    assert s'.threads.Keys == s.threads.Keys - {t};
    forall u | u in s'.threads
      ensures u < s'.nextTid && PcOk(s', s'.threads[u])
      ensures forall i :: 0 <= i < |s'.list| ==> Agrees(s'.list[i], u, s'.threads[u])
    {
      assert PcOk(s, s.threads[u]);
      assert forall i :: 0 <= i < |s.list| ==> Agrees(s.list[i], u, s.threads[u]);
    }
  }

  lemma ListOkAfter(s: State, s': State, p: nat, lib: Lib)
    requires ListOk(s) && p < |s.list| && lib.id == s.list[p].id && LibOk(lib, s.nextTid)
    requires s' == s.(threads := s'.threads, list := s.list[p := lib])
    ensures ListOk(s')
  {
    UpdateKeepsCounts(s.list, p, lib);
    forall i | 0 <= i < |s'.list|
      ensures IdInOrder(s'.list, i) && LibOk(s'.list[i], s'.nextTid)
    {
      assert IdInOrder(s.list, i) && LibOk(s.list[i], s.nextTid);
    }
  }

  lemma PcOkAfter(s: State, s': State, p: nat, lib: Lib, th: Thread)
    requires PcOk(s, th) && p < |s.list| && lib.id == s.list[p].id
    requires s' == s.(threads := s'.threads, list := s.list[p := lib])
    ensures PcOk(s', th)
  {
    if th.pc.Fill? {
      TlsCountSameIds(s'.list[..th.pc.pos], s.list[..th.pc.pos]);
    }
  }

  /** The history of a module as another thread sees it when thread `t` receives a slot. */
  ghost predicate GrowsBy(old_: Lib, new_: Lib, t: Tid) {
    && new_.id == old_.id && new_.alive == old_.alive
    && old_.dtvLog <= new_.dtvLog && old_.tlsLog <= new_.tlsLog
    && forall u :: u != t ==> (u in new_.dtvLog ==> u in old_.dtvLog) && (u in new_.tlsLog ==> u in old_.tlsLog)
  }

  lemma OtherAgrees(old_: Lib, new_: Lib, t: Tid, u: Tid, th: Thread)
    requires (new_ == old_ || GrowsBy(old_, new_, t)) && u != t && Agrees(old_, u, th)
    ensures Agrees(new_, u, th)
  {}

  /** The frame of a step by thread `t` that touches only its own state and the DSO at `p`. */
  lemma OneThreadInv(s: State, s': State, t: Tid, th: Thread, p: nat, lib: Lib)
    requires Inv(s) && t in s.threads && p < |s.list| && GrowsBy(s.list[p], lib, t) && LibOk(lib, s.nextTid)
    requires s' == WithThread(s, t, th).(list := s.list[p := lib])
    requires PcOk(s, th)
    requires forall i :: 0 <= i < |s.list| ==> Agrees(s'.list[i], t, th)
    ensures Inv(s')
  {
    hide PcOk, Agrees, EntryOwned, IdInOrder;
    ListOkAfter(s, s', p, lib);
    assert s'.threads.Keys == s.threads.Keys;
    forall u | u in s'.threads
      ensures u < s'.nextTid && PcOk(s', s'.threads[u])
      ensures forall i :: 0 <= i < |s'.list| ==> Agrees(s'.list[i], u, s'.threads[u])
    {
      PcOkAfter(s, s', p, lib, s'.threads[u]);
      if u != t {
        forall i | 0 <= i < |s'.list| ensures Agrees(s'.list[i], u, s'.threads[u]) {
          assert Agrees(s.list[i], u, s.threads[u]);
          OtherAgrees(s.list[i], s'.list[i], t, u, s.threads[u]);
        }
      }
    }
  }

  lemma IdsDiffer(list: seq<Lib>, i: nat, j: nat)
    requires i < |list| && j < |list| && i != j && list[i].id > 0
    requires IdInOrder(list, i) && IdInOrder(list, j)
    ensures list[i].id != list[j].id
  {
    if list[j].id > 0 {
      IdsIncrease(list, if i < j then i else j, if i < j then j else i);
    }
  }

  lemma AccessInv(s: State, s': State, t: Tid, v: nat)
    requires Inv(s) && Access(s, s', t, v)
    ensures Inv(s')
  {
    var th := s.threads[t];
    if v >= |th.dtv.entries| {
      var p := Locate(s.list, s.committed, v);
      var th' := th.(pc := NeedDtv(v));
      assert LibOk(s.list[p], s.nextTid);
      assert PcOk(s, th);
      assert s' == WithThread(s, t, th').(list := s.list[p := s.list[p]]);
      assert forall i :: 0 <= i < |s.list| ==> Agrees(s.list[i], t, th);
      assert forall i :: 0 <= i < |s.list| ==> Agrees(s.list[i], t, th');
      OneThreadInv(s, s', t, th', p, s.list[p]);
    }
  }

  lemma TakeDtvAgrees(s: State, s': State, t: Tid, p: nat, i: nat)
    requires Inv(s) && TakeDtv(s, s', t, p) && i < |s.list|
    ensures Agrees(s'.list[i], t, s'.threads[t])
  {
    assert Agrees(s.list[i], t, s.threads[t]) && LibOk(s.list[i], s.nextTid);
    if i != p && s.list[i].id > 0 {
      assert IdInOrder(s.list, i) && IdInOrder(s.list, p);
      IdsDiffer(s.list, i, p);
    }
  }

  lemma TakeDtvInv(s: State, s': State, t: Tid, p: nat)
    requires Inv(s) && TakeDtv(s, s', t, p)
    ensures Inv(s')
  {
    var th := s.threads[t];
    var lib := s.list[p];
    assert PcOk(s, th) && LibOk(lib, s.nextTid) && Agrees(lib, t, th);
    LogGrows(lib.dtvLog, t);
    forall i | 0 <= i < |s.list| ensures Agrees(s'.list[i], t, s'.threads[t]) {
      TakeDtvAgrees(s, s', t, p, i);
    }
    OneThreadInv(s, s', t, s'.threads[t], p, s'.list[p]);
  }

  lemma FillStepInv(s: State, s': State, t: Tid)
    requires Inv(s) && FillStep(s, s', t)
    ensures Inv(s')
  {
    var th := s.threads[t];
    var Fill(v, pos) := th.pc;
    var lib := s.list[pos];
    assert PcOk(s, th);
    if lib.id == 0 || th.dtv.entries[lib.id] != Null {
      FillSkips(s, th);
      var th' := th.(pc := Fill(v, pos + 1));
      assert s.list[pos := lib] == s.list;
      assert LibOk(lib, s.nextTid);
      forall i | 0 <= i < |s.list| ensures Agrees(s.list[i], t, th') {
        assert Agrees(s.list[i], t, th);
      }
      OneThreadInv(s, s', t, th', pos, lib);
    } else {
      FillTakesInv(s, s', t);
    }
  }

  lemma FillSkips(s: State, th: Thread)
    requires ListOk(s) && PcOk(s, th) && th.pc.Fill? && th.pc.pos < |s.list|
    requires var id := s.list[th.pc.pos].id; id < |th.dtv.entries| && (id == 0 || th.dtv.entries[id] != Null)
    ensures PcOk(s, th.(pc := Fill(th.pc.v, th.pc.pos + 1)))
  {
    TlsCountStep(s.list, th.pc.pos);
    assert IdInOrder(s.list, th.pc.pos);
  }

  function Filled(th: Thread, lib: Lib): Thread
    requires th.pc.Fill? && lib.id < |th.dtv.entries|
  {
    Thread(if lib.id == th.pc.v then Idle else Fill(th.pc.v, th.pc.pos + 1),
           th.dtv.(entries := th.dtv.entries[lib.id := Slot(lib.id, lib.tlsIdx)]))
  }

  lemma FillTakes(s: State, th: Thread)
    requires ListOk(s) && PcOk(s, th) && th.pc.Fill? && th.pc.pos < |s.list|
    requires var id := s.list[th.pc.pos].id; 0 < id < |th.dtv.entries| && th.dtv.entries[id] == Null
    ensures PcOk(s, Filled(th, s.list[th.pc.pos]))
  {
    TlsCountStep(s.list, th.pc.pos);
    assert IdInOrder(s.list, th.pc.pos);
  }

  ghost predicate FillTakesSlot(s: State, s': State, t: Tid) {
    && FillStep(s, s', t)
    && var th := s.threads[t]; var id := s.list[th.pc.pos].id; id > 0 && th.dtv.entries[id] == Null
  }

  lemma FillTakesAgrees(s: State, s': State, t: Tid, i: nat)
    requires Inv(s) && FillTakesSlot(s, s', t) && i < |s.list|
    ensures Agrees(s'.list[i], t, s'.threads[t])
  {
    var pos := s.threads[t].pc.pos;
    assert Agrees(s.list[i], t, s.threads[t]) && LibOk(s.list[i], s.nextTid);
    if i != pos && s.list[i].id > 0 {
      assert IdInOrder(s.list, i) && IdInOrder(s.list, pos);
      IdsDiffer(s.list, i, pos);
    }
  }

  lemma FillTakesInv(s: State, s': State, t: Tid)
    requires Inv(s) && FillTakesSlot(s, s', t)
    ensures Inv(s')
  {
    var th := s.threads[t];
    var pos := th.pc.pos;
    var lib := s.list[pos];
    assert PcOk(s, th) && LibOk(lib, s.nextTid) && Agrees(lib, t, th);
    FillTakes(s, th);
    LogGrows(lib.tlsLog, t);
    forall i | 0 <= i < |s.list| ensures Agrees(s'.list[i], t, s'.threads[t]) {
      FillTakesAgrees(s, s', t, i);
    }
    OneThreadInv(s, s', t, s'.threads[t], pos, s'.list[pos]);
  }

  lemma CounterInv(s: State, s': State)
    requires Inv(s) && (BeginLoad(s, s') || CloneFails(s, s') || CloneUndone(s, s'))
    ensures Inv(s')
  {
    forall t | t in s'.threads
      ensures PcOk(s', s'.threads[t])
      ensures forall i :: 0 <= i < |s'.list| ==> Agrees(s'.list[i], t, s'.threads[t])
    {
      assert PcOk(s, s.threads[t]);
      assert forall i :: 0 <= i < |s.list| ==> Agrees(s.list[i], t, s.threads[t]);
    }
  }

  lemma NextInv(s: State, s': State)
    requires Inv(s) && Next(s, s')
    ensures Inv(s')
  {
    hide Inv, BeginLoad, LoadLib, Commit, Abort, Create, CloneFails, CloneUndone, Exit, Access, TakeDtv, FillStep;
    if tls :| LoadLib(s, s', tls) {
      LoadLibInv(s, s', tls);
    } else if Commit(s, s') {
      CommitInv(s, s');
    } else if Abort(s, s') {
      AbortInv(s, s');
    } else if Create(s, s') {
      CreateInv(s, s');
    } else if t :| Exit(s, s', t) {
      ExitInv(s, s', t);
    } else if t, v :| Access(s, s', t, v) {
      AccessInv(s, s', t, v);
    } else if t, p :| TakeDtv(s, s', t, p) {
      TakeDtvInv(s, s', t, p);
    } else if t :| FillStep(s, s', t) {
      FillStepInv(s, s', t);
    } else {
      CounterInv(s, s');
    }
  }

  /** The invariant holds at every moment of every run. */
  lemma {:induction false} RunInv(run: seq<State>, n: nat)
    requires IsRun(run) && n < |run|
    ensures Inv(run[n])
  {
    if n == 0 {
      InitInv(run[0]);
    } else {
      RunInv(run, n - 1);
      NextInv(run[n - 1], run[n]);
    }
  }

  // ---------------------------------------------------------------- what the protocol guarantees

  /** In every run each module has handed out at most `n_th` slots of either kind, to threads that were
      alive when it was loaded, and never two of a kind to one thread. */
  lemma SlotsWithinReservation(run: seq<State>, n: nat, p: nat)
    requires IsRun(run) && n < |run| && p < |run[n].list|
    ensures var lib := run[n].list[p];
            && lib.dtvIdx == |lib.dtvLog| <= lib.nTh && lib.tlsIdx == |lib.tlsLog| <= lib.nTh
            && NoRepeats(lib.dtvLog) && NoRepeats(lib.tlsLog)
            && forall t :: t in lib.dtvLog || t in lib.tlsLog ==> t in lib.alive
  {
    RunInv(run, n);
    var lib := run[n].list[p];
    assert LibOk(lib, run[n].nextTid);
    LogFits(lib.dtvLog, lib.alive);
    LogFits(lib.tlsLog, lib.alive);
  }

  /** So the index that a step obtains from `a_fetch_add` is below `n_th`. */
  lemma IndexBelowReservation(run: seq<State>, n: nat, t: Tid, p: nat)
    requires IsRun(run) && n + 1 < |run| && p < |run[n].list|
    ensures TakeDtv(run[n], run[n + 1], t, p) ==> run[n].list[p].dtvIdx < run[n].list[p].nTh
    ensures FillStep(run[n], run[n + 1], t) && run[n + 1].list != run[n].list ==>
              var pos := run[n].threads[t].pc.pos; run[n].list[pos].tlsIdx < run[n].list[pos].nTh
  {
    if TakeDtv(run[n], run[n + 1], t, p) {
      SlotsWithinReservation(run, n + 1, p);
    }
    if FillStep(run[n], run[n + 1], t) && run[n + 1].list != run[n].list {
      SlotsWithinReservation(run, n + 1, run[n].threads[t].pc.pos);
    }
  }

  /** Two threads never hold the same slot, neither for their DTVs nor for the block of any module. */
  lemma SlotsAreExclusive(run: seq<State>, n: nat, t: Tid, u: Tid, m: nat)
    requires IsRun(run) && n < |run| && t != u && t in run[n].threads && u in run[n].threads
    ensures var d, e := run[n].threads[t].dtv, run[n].threads[u].dtv;
            && (d.home.Reserved? ==> d.home != e.home)
            && (1 <= m < |d.entries| && m < |e.entries| && d.entries[m].Slot? ==> d.entries[m] != e.entries[m])
  {
    RunInv(run, n);
    var s := run[n];
    var th, uh := s.threads[t], s.threads[u];
    assert PcOk(s, th) && PcOk(s, uh);
    assert s.visible <= TlsCount(s.list[..|s.list|]) by {
      TlsCountMono(s.list, s.committed, |s.list|);
    }
    if th.dtv.home.Reserved? {
      var p := Locate(s.list, |s.list|, th.dtv.home.id);
      assert Agrees(s.list[p], t, th) && Agrees(s.list[p], u, uh);
    }
    if 1 <= m < |th.dtv.entries| && m < |uh.dtv.entries| {
      var p := Locate(s.list, |s.list|, m);
      assert Agrees(s.list[p], t, th) && Agrees(s.list[p], u, uh);
    }
  }

  /** Outside `__tls_get_new` every entry up to dtv[0] is filled, so the fast path never sees null. */
  lemma EntriesComplete(run: seq<State>, n: nat, t: Tid)
    requires IsRun(run) && n < |run| && t in run[n].threads && run[n].threads[t].pc == Idle
    ensures forall m :: 1 <= m < |run[n].threads[t].dtv.entries| ==> run[n].threads[t].dtv.entries[m] != Null
  {
    RunInv(run, n);
    assert PcOk(run[n], run[n].threads[t]);
  }

  /** Both walks of `__tls_get_new` end on the list: the module asked for is there, for the filling walk
      at or after its position, and the DTV is long enough for every DSO met on the way. */
  lemma WalkStaysOnList(run: seq<State>, n: nat, t: Tid) returns (p: nat)
    requires IsRun(run) && n < |run| && t in run[n].threads && run[n].threads[t].pc != Idle
    ensures var s, th := run[n], run[n].threads[t];
            && p < |s.list| && s.list[p].id == th.pc.v
            && (th.pc.NeedDtv? ==> |th.dtv.entries| <= th.pc.v)
            && (th.pc.Fill? ==> th.pc.pos <= p && s.list[th.pc.pos].id < |th.dtv.entries|)
  {
    RunInv(run, n);
    var s := run[n];
    var th := s.threads[t];
    assert PcOk(s, th);
    assert s.list[..|s.list|] == s.list;
    TlsCountMono(s.list, s.committed, |s.list|);
    p := Locate(s.list, |s.list|, th.pc.v);
    if th.pc.Fill? {
      if p < th.pc.pos {
        IdBound(s.list, p, th.pc.pos);
      }
      assert IdInOrder(s.list, th.pc.pos);
    }
  }

  /** The reservation a module's allocation was sized for. */
  ghost predicate ReservedBy(lib: Lib, q: TlsStorage.Request, p: word) {
    && TlsStorage.Plausible(q) && 0 < TlsStorage.PerThread(q) < MODULUS && q.seg.align > 0
    && q.threads == lib.nTh && q.tlsCnt + 1 == lib.id
    && TlsStorage.AllocSize(q) < TlsStorage.SIZE_MAX && p + TlsStorage.AllocSize(q) < MODULUS
    && TlsStorage.NameStart(q, p) + q.nameLen + 8 < MODULUS
  }

  /** In memory: the extended DTVs of two threads from one module, as long as their entries demand, and
      the threads' blocks of that module do not overlap, DTVs with DTVs, blocks with blocks or DTVs with
      blocks, one thread's own included, and lie inside that module's allocation. */
  lemma ThreadMemoryIsDisjoint(run: seq<State>, n: nat, t: Tid, u: Tid, i: nat, q: TlsStorage.Request, p: word)
    requires IsRun(run) && n < |run| && t != u && t in run[n].threads && u in run[n].threads
    requires i < |run[n].list| && ReservedBy(run[n].list[i], q, p)
    ensures var id := run[n].list[i].id;
            var d, e := run[n].threads[t].dtv, run[n].threads[u].dtv;
            && (d.home.Reserved? && e.home.Reserved? && d.home.id == e.home.id == id ==>
                  && Apart(TlsStorage.DtvSlot(q, p, d.home.idx), 8 * |d.entries|,
                           TlsStorage.DtvSlot(q, p, e.home.idx), 8 * |e.entries|)
                  && Within(TlsStorage.DtvSlot(q, p, d.home.idx), 8 * |d.entries|, p, TlsStorage.AllocSize(q)))
            && (id < |d.entries| && id < |e.entries| && d.entries[id].Slot? && e.entries[id].Slot? ==>
                  && Apart(TlsStorage.TlsSlot(q, p, d.entries[id].idx), q.seg.size,
                           TlsStorage.TlsSlot(q, p, e.entries[id].idx), q.seg.size)
                  && Within(TlsStorage.TlsSlot(q, p, d.entries[id].idx), q.seg.size, p, TlsStorage.AllocSize(q)))
            && (d.home.Reserved? && d.home.id == id && id < |e.entries| && e.entries[id].Slot? ==>
                  Apart(TlsStorage.DtvSlot(q, p, d.home.idx), 8 * |d.entries|,
                        TlsStorage.TlsSlot(q, p, e.entries[id].idx), q.seg.size))
            && (d.home.Reserved? && d.home.id == id && id < |d.entries| && d.entries[id].Slot? ==>
                  Apart(TlsStorage.DtvSlot(q, p, d.home.idx), 8 * |d.entries|,
                        TlsStorage.TlsSlot(q, p, d.entries[id].idx), q.seg.size))
  {
    RunInv(run, n);
    SlotsWithinReservation(run, n, i);
    var s := run[n];
    var lib := s.list[i];
    var id := lib.id;
    var d, e := s.threads[t].dtv, s.threads[u].dtv;
    SlotsAreExclusive(run, n, t, u, id);
    assert PcOk(s, s.threads[t]) && PcOk(s, s.threads[u]);
    assert Agrees(lib, t, s.threads[t]) && Agrees(lib, u, s.threads[u]);
    if d.home.Reserved? && e.home.Reserved? && d.home.id == e.home.id == id {
      SlotPairApart(q, p, d.home.idx, e.home.idx);
    }
    if id < |d.entries| && id < |e.entries| && d.entries[id].Slot? && e.entries[id].Slot? {
      SlotPairApart(q, p, d.entries[id].idx, e.entries[id].idx);
    }
    if d.home.Reserved? && d.home.id == id && id < |e.entries| && e.entries[id].Slot? {
      DtvApartFromSlot(q, p, d.home.idx, e.entries[id].idx);
    }
    if d.home.Reserved? && d.home.id == id && id < |d.entries| && d.entries[id].Slot? {
      DtvApartFromSlot(q, p, d.home.idx, d.entries[id].idx);
    }
  }

  /** All DTVs come before all blocks. */
  lemma DtvApartFromSlot(q: TlsStorage.Request, p: word, j: nat, k: nat)
    requires TlsStorage.Plausible(q) && 0 < TlsStorage.PerThread(q) < MODULUS && q.seg.align > 0
    requires TlsStorage.AllocSize(q) < TlsStorage.SIZE_MAX && p + TlsStorage.AllocSize(q) < MODULUS
    requires TlsStorage.NameStart(q, p) + q.nameLen + 8 < MODULUS
    requires j < q.threads && k < q.threads
    ensures TlsStorage.DtvSlot(q, p, j) + 8 * TlsStorage.DtvWords(q) <= TlsStorage.TlsSlot(q, p, k)
  {
    TlsStorage.RegionsAreDisjoint(q, p, 0, j);
    TlsStorage.RegionsAreDisjoint(q, p, k, k);
  }

  predicate Apart(a: int, m: int, b: int, n: int) {
    a + m <= b || b + n <= a
  }

  predicate Within(a: int, m: int, p: int, n: int) {
    p <= a && a + m <= p + n
  }

  lemma SlotPairApart(q: TlsStorage.Request, p: word, j: nat, k: nat)
    requires TlsStorage.Plausible(q) && 0 < TlsStorage.PerThread(q) < MODULUS && q.seg.align > 0
    requires TlsStorage.AllocSize(q) < TlsStorage.SIZE_MAX && p + TlsStorage.AllocSize(q) < MODULUS
    requires TlsStorage.NameStart(q, p) + q.nameLen + 8 < MODULUS
    requires j < q.threads && k < q.threads && j != k
    ensures Apart(TlsStorage.DtvSlot(q, p, j), 8 * TlsStorage.DtvWords(q),
                  TlsStorage.DtvSlot(q, p, k), 8 * TlsStorage.DtvWords(q))
    ensures Within(TlsStorage.DtvSlot(q, p, j), 8 * TlsStorage.DtvWords(q), p, TlsStorage.AllocSize(q))
    ensures Apart(TlsStorage.TlsSlot(q, p, j), q.seg.size, TlsStorage.TlsSlot(q, p, k), q.seg.size)
    ensures Within(TlsStorage.TlsSlot(q, p, j), q.seg.size, p, TlsStorage.AllocSize(q))
  {
    TlsStorage.RegionsAreDisjoint(q, p, 0, if j < k then j else k);
    TlsStorage.RegionsAreDisjoint(q, p, 0, if j < k then k else j);
    TlsStorage.RegionsAreDisjoint(q, p, if j < k then j else k, if j < k then k else j);
  }
}
