/** Constructors and destructors: `do_init_fini` run by any number of threads, entered again when a
    constructor calls `dlopen`, and `__libc_exit_fini`.  Checking and setting the `constructed` flag
    are separate steps here; what keeps them together is the lock, or being the only thread. */
module InitFini {
  import opened Basics

  type Tid = nat

  /** What the dynamic section says of destructors: DT_FINI, whose value may be zero, and DT_FINI_ARRAY. */
  datatype Dso = Dso(fini: Option<nat>, finiArray: Option<seq<nat>>)

  predicate HasDestructor(d: Dso) {
    d.fini.Some? || d.finiArray.Some?
  }

  /** The points of `do_init_fini` between which other threads may run. */
  datatype Phase = Enter | Acquire | Visit | Mark | Push | Ctor | After | AcquireLate | Release

  /** A call of `do_init_fini`: the DSO it started from, the DSO it is at (-1 past the head of the list),
      and `need_locking`. */
  datatype Frame = Frame(start: int, pos: int, need: bool, phase: Phase)

  /** The load list, oldest first; the `constructed` flags; the fini list from `fini_head`; the mutex; a
      stack of calls for every live thread; and, as history, the order in which flags were set. */
  datatype State = State(list: seq<Dso>, constructed: set<nat>, fini: seq<nat>, owner: set<Tid>, depth: nat,
                         threads: map<Tid, seq<Frame>>, nextTid: Tid, marks: seq<nat>)

  // ---------------------------------------------------------------- steps

  function Top(st: seq<Frame>): Frame
    requires st != []
  {
    st[|st| - 1]
  }

  /** The thread runs code of the program: no call is active, or a constructor is. */
  predicate InProgram(st: seq<Frame>) {
    st == [] || Top(st).phase == Ctor
  }

  function SetTop(s: State, t: Tid, f: Frame): State
    requires t in s.threads && s.threads[t] != []
  {
    s.(threads := s.threads[t := s.threads[t][..|s.threads[t]| - 1] + [f]])
  }

  /** `libc.threads_minus_1` is not zero. */
  predicate Threaded(s: State) {
    |s.threads| > 1
  }

  /** `dlopen` commits any number of new DSOs and calls `do_init_fini` on the tail. */
  ghost predicate Open(s: State, s': State, t: Tid) {
    && t in s.threads && InProgram(s.threads[t])
    && s.list <= s'.list && |s'.list| > 0
    && var last := |s'.list| - 1;
       s' == s.(list := s'.list, threads := s.threads[t := s.threads[t] + [Frame(last, last, false, Enter)]])
  }

  ghost predicate NewThread(s: State, s': State, t: Tid) {
    && t in s.threads && InProgram(s.threads[t])
    && s' == s.(threads := s.threads[s.nextTid := []], nextTid := s.nextTid + 1)
  }

  ghost predicate ExitThread(s: State, s': State, t: Tid) {
    && t in s.threads && s.threads[t] == [] && Threaded(s)
    && s' == s.(threads := s.threads - {t})
  }

  /** The mutex is recursive. */
  predicate CanLock(s: State, t: Tid) {
    s.owner == {} || s.owner == {t}
  }

  ghost predicate Advance(s: State, s': State, t: Tid) {
    && t in s.threads && s.threads[t] != []
    && var f := Top(s.threads[t]);
       match f.phase
       case Enter =>
         s' == SetTop(s, t, if Threaded(s) then f.(need := true, phase := Acquire) else f.(phase := Visit))
       case Acquire =>
         CanLock(s, t) && s' == SetTop(s, t, f.(phase := Visit)).(owner := {t}, depth := s.depth + 1)
       case Visit =>
         s' == SetTop(s, t, if f.pos < 0 then f.(phase := Release)
                            else if f.pos in s.constructed then f.(pos := f.pos - 1)
                            else f.(phase := Mark))
       case Mark =>
         f.pos >= 0
         && s' == SetTop(s, t, f.(phase := Push)).(constructed := s.constructed + {f.pos}, marks := s.marks + [f.pos])
       case Push =>
         0 <= f.pos < |s.list|
         && s' == SetTop(s, t, f.(phase := Ctor))
                    .(fini := if HasDestructor(s.list[f.pos]) then [f.pos] + s.fini else s.fini)
       case Ctor =>
         s' == SetTop(s, t, f.(phase := After))
       case After =>
         s' == SetTop(s, t, if !f.need && Threaded(s) then f.(need := true, phase := AcquireLate)
                            else f.(pos := f.pos - 1, phase := Visit))
       case AcquireLate =>
         CanLock(s, t) && s' == SetTop(s, t, f.(pos := f.pos - 1, phase := Visit)).(owner := {t}, depth := s.depth + 1)
       case Release =>
         var popped := s.(threads := s.threads[t := s.threads[t][..|s.threads[t]| - 1]]);
         if f.need then s.depth > 0 && s' == popped.(depth := s.depth - 1, owner := if s.depth
             == 1 then {} else s.owner)
         else s' == popped
  }

  ghost predicate Next(s: State, s': State) {
    exists t :: Open(s, s', t) || NewThread(s, s', t) || ExitThread(s, s', t) || Advance(s, s', t)
  }

  ghost predicate Init(s: State) {
    && s.constructed == {} && s.fini == [] && s.owner == {} && s.depth == 0 && s.marks == []
    && s.threads == map[0 := []] && s.nextTid == 1
  }

  ghost predicate IsRun(run: seq<State>) {
    && |run| > 0 && Init(run[0])
    && forall n :: 0 <= n < |run| - 1 ==> Next(run[n], run[n + 1])
  }

  // ---------------------------------------------------------------- the invariant

  /** The phases in which a call relies on no other call being in one of them. */
  predicate Busy(f: Frame) {
    f.phase == Visit || f.phase == Mark || f.phase == Push
  }

  predicate Holds(f: Frame) {
    f.need && f.phase != Acquire && f.phase != AcquireLate
  }

  /** How often a thread's calls have locked the mutex. */
  function Held(st: seq<Frame>): nat {
    if st == [] then 0 else Held(st[..|st| - 1]) + if Holds(st[|st| - 1]) then 1 else 0
  }

  ghost predicate FrameOk(s: State, f: Frame) {
    && -1 <= f.pos <= f.start < |s.list|
    && (f.phase in {Mark, Push, Ctor, After, AcquireLate} ==> f.pos >= 0)
    && (f.phase == Mark ==> f.pos !in s.constructed)
    && (f.phase in {Push, Ctor, After, AcquireLate} ==> f.pos in s.constructed)
    && (f.phase == Release ==> f.pos == -1)
    && (f.phase in {Enter, Acquire} ==> f.pos == f.start)
    && (f.phase == Enter ==> !f.need) && (f.phase in {Acquire, AcquireLate} ==> f.need)
    && forall i :: f.pos < i <= f.start ==> i in s.constructed
  }

  ghost predicate StackOk(s: State, t: Tid)
    requires t in s.threads
  {
    var st := s.threads[t];
    && t < s.nextTid
    && (forall k :: 0 <= k < |st| ==> FrameOk(s, st[k]))
    && (forall k :: 0 <= k < |st| - 1 ==> st[k].phase == Ctor)
    && Held(st) == (if s.owner == {t} then s.depth else 0)
    && (st != [] && Busy(Top(st)) && !Top(st).need ==> s.threads.Keys == {t})
  }

  ghost predicate LockOk(s: State) {
    && (s.owner == {} ==> s.depth == 0)
    && (s.owner != {} ==> s.depth > 0 && exists t :: t in s.threads && s.owner == {t})
  }

  /** The fini list is the reverse of the order of marking, short of a DSO just marked. */
  ghost predicate FiniOk(s: State) {
    && (forall i :: i in s.constructed <==> i in s.marks)
    && (forall i, j :: 0 <= i < j < |s.marks| ==> s.marks[i] != s.marks[j])
    && (forall k :: 0 <= k < |s.marks| ==> s.marks[k] < |s.list|)
    && if exists t :: InPush(s, t) then
         s.marks != [] && s.fini == FiniOrder(s.list, s.marks[..|s.marks| - 1])
         && forall t :: InPush(s, t) ==> Top(s.threads[t]).pos == s.marks[|s.marks| - 1]
       else s.fini == FiniOrder(s.list, s.marks)
  }

  ghost predicate InPush(s: State, t: Tid) {
    t in s.threads && s.threads[t] != [] && Top(s.threads[t]).phase == Push
  }

  /** The DSOs with destructors, last marked first. */
  function FiniOrder(list: seq<Dso>, marks: seq<nat>): seq<nat> {
    if marks == [] then []
    else
      var i := marks[|marks| - 1];
      (if i < |list| && HasDestructor(list[i]) then [i] else []) + FiniOrder(list, marks[..|marks| - 1])
  }

  ghost predicate Inv(s: State) {
    && LockOk(s) && FiniOk(s)
    && forall t :: t in s.threads ==> StackOk(s, t)
  }

  /** Mutual exclusion: at most one thread is between a check of the flag and the push. */
  lemma {:induction false} OneBusy(s: State, t: Tid, u: Tid)
    requires Inv(s) && t in s.threads && u in s.threads
    requires s.threads[t] != [] && Busy(Top(s.threads[t]))
    requires s.threads[u] != [] && Busy(Top(s.threads[u]))
    ensures t == u
  {
    assert StackOk(s, t) && StackOk(s, u);
    HeldByTop(s.threads[t]);
    HeldByTop(s.threads[u]);
    assert u in s.threads.Keys && t in s.threads.Keys;
  }

  lemma {:induction false} HeldByTop(st: seq<Frame>)
    requires st != []
    ensures Holds(Top(st)) ==> Held(st) > 0
  {}

  // ---------------------------------------------------------------- steps keep the invariant

  lemma {:induction false} HeldOfPrefix(st: seq<Frame>, f: Frame)
    ensures Held(st + [f]) == Held(st) + if Holds(f) then 1 else 0
  {
    assert (st + [f])[..|st|] == st;
  }

  lemma {:induction false} FiniOrderGrows(a: seq<Dso>, b: seq<Dso>, marks: seq<nat>)
    requires a <= b && forall k :: 0 <= k < |marks| ==> marks[k] < |a|
    ensures FiniOrder(a, marks) == FiniOrder(b, marks)
  {
    if marks != [] {
      FiniOrderGrows(a, b, marks[..|marks| - 1]);
    }
  }

  /** A step that marks and pushes nothing leaves the fini list right. */
  lemma {:induction false} FiniSame(s: State, s': State)
    requires FiniOk(s) && s.list <= s'.list
    requires s'.marks == s.marks && s'.fini == s.fini && s'.constructed == s.constructed
    requires forall t :: InPush(s, t) <==> InPush(s', t)
    requires forall t :: InPush(s, t) && InPush(s', t) ==> Top(s'.threads[t]).pos == Top(s.threads[t]).pos
    ensures FiniOk(s')
  {
    FiniOrderGrows(s.list, s'.list, s.marks);
    if s.marks != [] {
      FiniOrderGrows(s.list, s'.list, s.marks[..|s.marks| - 1]);
    }
  }

  /** The other threads' calls do not notice a step of thread `t`. */
  lemma {:induction false} OthersOk(s: State, s': State, t: Tid, u: Tid)
    requires Inv(s) && t in s.threads && u in s.threads && u != t
    requires u in s'.threads && s'.threads[u] == s.threads[u]
    requires s.list <= s'.list && s.nextTid <= s'.nextTid && s.constructed <= s'.constructed
    requires s'.constructed == s.constructed || (s.threads[t] != [] && Busy(Top(s.threads[t])))
    requires (s'.owner == s.owner && s'.depth == s.depth) || (CanLock(s, t) && (s'.owner == {t} || s'.owner == {}))
    ensures StackOk(s', u)
  {
    assert StackOk(s, u);
    var st := s.threads[u];
    assert {t} != {u} by {
      assert t !in {u};
    }
    if st != [] && Busy(Top(st)) && s'.constructed != s.constructed {
      OneBusy(s, t, u);
    }
    assert t in s.threads.Keys;
    forall k | 0 <= k < |st| ensures FrameOk(s', st[k]) {
      assert FrameOk(s, st[k]);
      if k < |st| - 1 {
        assert st[k].phase == Ctor;
      } else {
        assert st[k] == Top(st);
      }
    }
  }

  /** A running constructor's call stays right while flags are only set. */
  lemma {:induction false} FrameKept(s: State, s': State, f: Frame)
    requires FrameOk(s, f) && f.phase == Ctor && s.list <= s'.list && s.constructed <= s'.constructed
    ensures FrameOk(s', f)
  {}

  lemma {:induction false} TopCall(s: State, t: Tid)
    requires Inv(s) && t in s.threads && s.threads[t] != []
    ensures StackOk(s, t) && FrameOk(s, Top(s.threads[t]))
  {
    assert StackOk(s, t);
  }

  /** The stack of thread `t` after its top call moved on. */
  lemma {:induction false} TopOk(s: State, s': State, t: Tid, f: Frame)
    requires Inv(s) && t in s.threads && s.threads[t] != [] && t in s'.threads
    requires s'.threads[t] == s.threads[t][..|s.threads[t]| - 1] + [f]
    requires s'.list == s.list && s'.nextTid == s.nextTid && s.constructed <= s'.constructed
    requires s'.threads.Keys == s.threads.Keys
    requires FrameOk(s', f)
    requires var d := (if Holds(f) then 1 else 0) - (if Holds(Top(s.threads[t])) then 1 else 0);
             (if s'.owner == {t} then s'.depth else 0) == (if s.owner == {t} then s.depth else 0) + d
    requires Busy(f) && !f.need ==> s.threads.Keys == {t}
    ensures StackOk(s', t)
  {
    hide FrameOk, FiniOk, LockOk, Held, Holds;
    assert StackOk(s, t);
    var st := s.threads[t];
    var low := st[..|st| - 1];
    assert st == low + [Top(st)];
    HeldOfPrefix(low, f);
    HeldOfPrefix(low, Top(st));
    forall k | 0 <= k < |low| ensures FrameOk(s', low[k]) && low[k].phase == Ctor {
      assert FrameOk(s, st[k]) && st[k] == low[k];
      FrameKept(s, s', low[k]);
    }
  }

  lemma {:induction false} InitInv(s: State)
    requires Init(s)
    ensures Inv(s)
  {}

  lemma {:induction false} OpenedStack(s: State, s': State, t: Tid)
    requires Inv(s) && Open(s, s', t)
    ensures StackOk(s', t) && Held(s'.threads[t]) == Held(s.threads[t])
  {
    hide FiniOk, FiniOrder;
    var st := s.threads[t];
    assert StackOk(s, t);
    var f := s'.threads[t][|st|];
    HeldOfPrefix(st, f);
    forall k | 0 <= k < |st| + 1
      ensures FrameOk(s', s'.threads[t][k]) && (k < |st| ==> s'.threads[t][k].phase == Ctor)
    {
      if k < |st| {
        assert FrameOk(s, st[k]);
        if k == |st| - 1 {
          assert st[k] == Top(st);
        }
      }
    }
  }

  lemma {:induction false} OpenInv(s: State, s': State, t: Tid)
    requires Inv(s) && Open(s, s', t)
    ensures Inv(s')
  {
    hide FiniOk, FiniOrder, StackOk, Held;
    OpenedStack(s, s', t);
    assert s'.threads.Keys == s.threads.Keys;
    forall u | u in s'.threads && u != t ensures StackOk(s', u) {
      OthersOk(s, s', t, u);
    }
    FiniSame(s, s');
  }

  lemma {:induction false} CreatorStack(s: State, s': State, t: Tid)
    requires Inv(s) && NewThread(s, s', t)
    ensures StackOk(s', t) && StackOk(s', s.nextTid)
  {
    hide FiniOk, FiniOrder;
    assert StackOk(s, t);
    assert s.threads[t] == [] || !Busy(Top(s.threads[t]));
    forall k | 0 <= k < |s.threads[t]| ensures FrameOk(s', s.threads[t][k]) {
      assert FrameOk(s, s.threads[t][k]);
    }
    assert s.nextTid !in s.threads && s.nextTid !in s.owner;
  }

  lemma {:induction false} ThreadsBelow(s: State)
    requires Inv(s)
    ensures forall u :: u in s.threads ==> u != s.nextTid
  {
    hide FiniOk, FiniOrder;
    forall u | u in s.threads ensures u != s.nextTid {
      assert StackOk(s, u);
    }
  }

  lemma {:induction false} NewThreadInv(s: State, s': State, t: Tid)
    requires Inv(s) && NewThread(s, s', t)
    ensures Inv(s')
  {
    hide FiniOk, FiniOrder, StackOk, Held;
    var n := s.nextTid;
    ThreadsBelow(s);
    CreatorStack(s, s', t);
    forall u | u in s.threads && u != t ensures StackOk(s', u) {
      OthersOk(s, s', t, u);
    }
    if s.owner != {} {
      var o :| o in s.threads && s.owner == {o};
      assert o != n && n !in s.owner;
    }
    assert s'.threads.Keys == s.threads.Keys + {n};
    assert LockOk(s');
    forall u ensures InPush(s, u) <==> InPush(s', u) {}
    FiniSame(s, s');
  }

  lemma {:induction false} ExitThreadInv(s: State, s': State, t: Tid)
    requires Inv(s) && ExitThread(s, s', t)
    ensures Inv(s')
  {
    assert StackOk(s, t);
    assert s.owner != {t};
    forall u | u in s'.threads ensures StackOk(s', u) {
      assert u in s.threads && u != t;
      OthersOk(s, s', t, u);
    }
    if s.owner != {} {
      var o :| o in s.threads && s.owner == {o};
      assert o != t;
      assert o in s'.threads;
    }
    FiniSame(s, s');
  }

  /** What a step by the top call of thread `t` changes besides that call. */
  ghost predicate Moves(s: State, s': State, t: Tid, f: Frame) {
    && t in s.threads && s.threads[t] != []
    && s'.threads == s.threads[t := s.threads[t][..|s.threads[t]| - 1] + [f]]
    && s'.list == s.list && s'.nextTid == s.nextTid
  }

  /** A call moves on without touching flags, fini list or lock. */
  lemma {:induction false} QuietInv(s: State, s': State, t: Tid, f: Frame)
    requires Inv(s) && Moves(s, s', t, f)
    requires s' == s.(threads := s'.threads)
    requires FrameOk(s', f) && Holds(f) == Holds(Top(s.threads[t]))
    requires Busy(f) && !f.need ==> s.threads.Keys == {t}
    requires f.phase != Push && Top(s.threads[t]).phase != Push
    ensures Inv(s')
  {
    TopOk(s, s', t, f);
    forall u | u in s'.threads && u != t ensures StackOk(s', u) {
      OthersOk(s, s', t, u);
    }
    assert Top(s'.threads[t]) == f;
    forall u ensures InPush(s, u) <==> InPush(s', u) {}
    FiniSame(s, s');
  }

  /** A call obtains the mutex. */
  lemma {:induction false} LockInv(s: State, s': State, t: Tid, f: Frame)
    requires Inv(s) && Moves(s, s', t, f) && CanLock(s, t)
    requires s' == s.(threads := s'.threads, owner := {t}, depth := s.depth + 1)
    requires FrameOk(s', f) && f.need && f.phase == Visit && !Holds(Top(s.threads[t]))
    requires Top(s.threads[t]).phase != Push
    ensures Inv(s')
  {
    assert StackOk(s, t);
    TopOk(s, s', t, f);
    forall u | u in s'.threads && u != t ensures StackOk(s', u) {
      OthersOk(s, s', t, u);
    }
    assert Top(s'.threads[t]) == f;
    forall u ensures InPush(s, u) <==> InPush(s', u) {}
    FiniSame(s, s');
  }

  lemma {:induction false} SingleThread(s: State, t: Tid)
    requires t in s.threads && !Threaded(s)
    ensures s.threads.Keys == {t}
  {
    var rest := s.threads.Keys - {t};
    assert |s.threads.Keys| == |rest| + 1;
    assert |s.threads.Keys| == |s.threads|;
    assert rest == {};
  }

  lemma {:induction false} EnterInv(s: State, s': State, t: Tid)
    requires Inv(s) && Advance(s, s', t) && Top(s.threads[t]).phase == Enter
    ensures Inv(s')
  {
    hide Inv;
    TopCall(s, t);
    var f := Top(s'.threads[t]);
    if !Threaded(s) {
      SingleThread(s, t);
    }
    QuietInv(s, s', t, f);
  }

  lemma {:induction false} AcquireInv(s: State, s': State, t: Tid)
    requires Inv(s) && Advance(s, s', t) && Top(s.threads[t]).phase in {Acquire, AcquireLate}
    ensures Inv(s')
  {
    hide Inv;
    TopCall(s, t);
    var f := Top(s'.threads[t]);
    LockInv(s, s', t, f);
  }

  lemma {:induction false} VisitInv(s: State, s': State, t: Tid)
    requires Inv(s) && Advance(s, s', t) && Top(s.threads[t]).phase == Visit
    ensures Inv(s')
  {
    hide Inv;
    TopCall(s, t);
    var f := Top(s'.threads[t]);
    QuietInv(s, s', t, f);
  }

  lemma {:induction false} CtorInv(s: State, s': State, t: Tid)
    requires Inv(s) && Advance(s, s', t) && Top(s.threads[t]).phase in {Ctor, After}
    ensures Inv(s')
  {
    hide Inv;
    TopCall(s, t);
    var f := Top(s'.threads[t]);
    if !Threaded(s) {
      SingleThread(s, t);
    }
    QuietInv(s, s', t, f);
  }

  lemma {:induction false} NobodyElsePushes(s: State, t: Tid)
    requires Inv(s) && t in s.threads && s.threads[t] != [] && Busy(Top(s.threads[t]))
    ensures forall u :: u != t ==> !InPush(s, u)
  {
    forall u | u != t && u in s.threads && s.threads[u] != [] && Top(s.threads[u]).phase == Push
      ensures false
    {
      OneBusy(s, t, u);
    }
  }

  lemma {:induction false} MarkInv(s: State, s': State, t: Tid)
    requires Inv(s) && Advance(s, s', t) && Top(s.threads[t]).phase == Mark
    ensures Inv(s')
  {
    hide FiniOk, FiniOrder;
    assert StackOk(s, t);
    var g := Top(s.threads[t]);
    assert FrameOk(s, g);
    var f := Top(s'.threads[t]);
    TopOk(s, s', t, f);
    forall u | u in s'.threads && u != t ensures StackOk(s', u) {
      OthersOk(s, s', t, u);
    }
    NobodyElsePushes(s, t);
    assert !InPush(s, t);
    assert InPush(s', t);
    forall u | u != t ensures !InPush(s', u) {
      assert !InPush(s, u);
    }
    MarkFini(s, s', g.pos);
  }

  lemma {:induction false} MarkFini(s: State, s': State, p: nat)
    requires FiniOk(s) && (forall t :: !InPush(s, t)) && p !in s.constructed && p < |s.list|
    requires s'.list == s.list && s'.fini == s.fini
    requires s'.marks == s.marks + [p] && s'.constructed == s.constructed + {p}
    requires exists t :: InPush(s', t)
    requires forall t :: InPush(s', t) ==> Top(s'.threads[t]).pos == p
    ensures FiniOk(s')
  {
    assert s'.marks[..|s'.marks| - 1] == s.marks;
    forall i ensures i in s'.marks <==> i in s.marks || i == p {}
    forall j | 0 <= j < |s.marks| ensures s.marks[j] != p {
      assert s.marks[j] in s.marks;
    }
  }

  lemma {:induction false} PushFini(s: State, s': State, t: Tid)
    requires FiniOk(s) && InPush(s, t) && !exists u :: InPush(s', u)
    requires s'.list == s.list && s'.marks == s.marks && s'.constructed == s.constructed
    requires var p := Top(s.threads[t]).pos;
             0 <= p < |s.list| && s'.fini == if HasDestructor(s.list[p]) then [p] + s.fini else s.fini
    ensures FiniOk(s')
  {}

  lemma {:induction false} PushInv(s: State, s': State, t: Tid)
    requires Inv(s) && Advance(s, s', t) && Top(s.threads[t]).phase == Push
    ensures Inv(s')
  {
    hide FiniOk, FiniOrder;
    TopCall(s, t);
    TopOk(s, s', t, Top(s'.threads[t]));
    forall u | u in s'.threads && u != t ensures StackOk(s', u) {
      OthersOk(s, s', t, u);
    }
    NobodyElsePushes(s, t);
    forall u ensures !InPush(s', u) {
      assert u != t ==> !InPush(s, u);
    }
    PushFini(s, s', t);
  }

  lemma {:induction false} ReleaseInv(s: State, s': State, t: Tid)
    requires Inv(s) && Advance(s, s', t) && Top(s.threads[t]).phase == Release
    ensures Inv(s')
  {
    hide FiniOk, FiniOrder;
    LowerCalls(s, s', t);
    ReleasedTop(s, s', t);
    forall u | u in s'.threads && u != t ensures StackOk(s', u) {
      OthersOk(s, s', t, u);
    }
    forall u ensures InPush(s, u) <==> InPush(s', u) {}
    FiniSame(s, s');
  }

  /** What is below the call that returns: constructors that are running. */
  lemma {:induction false} LowerCalls(s: State, s': State, t: Tid)
    requires Inv(s) && Advance(s, s', t) && Top(s.threads[t]).phase == Release
    ensures s'.threads.Keys == s.threads.Keys && InProgram(s'.threads[t])
    ensures var low := s'.threads[t];
            && Held(s.threads[t]) == Held(low) + (if Holds(Top(s.threads[t])) then 1 else 0)
            && forall k :: 0 <= k < |low| ==> FrameOk(s', low[k]) && low[k].phase == Ctor
  {
    assert StackOk(s, t);
    var st := s.threads[t];
    var low := st[..|st| - 1];
    HeldOfPrefix(low, Top(st));
    assert st == low + [Top(st)];
    forall k | 0 <= k < |low| ensures FrameOk(s', low[k]) && low[k].phase == Ctor {
      assert FrameOk(s, st[k]) && st[k] == low[k];
    }
  }

  lemma {:induction false} ReleasedTop(s: State, s': State, t: Tid)
    requires Inv(s) && Advance(s, s', t) && Top(s.threads[t]).phase == Release
    requires var low := s'.threads[t];
             && InProgram(low)
             && Held(s.threads[t]) == Held(low) + (if Holds(Top(s.threads[t])) then 1 else 0)
             && forall k :: 0 <= k < |low| ==> FrameOk(s', low[k]) && low[k].phase == Ctor
    ensures StackOk(s', t) && LockOk(s')
  {
    assert StackOk(s, t);
  }

  lemma {:induction false} NextInv(s: State, s': State)
    requires Inv(s) && Next(s, s')
    ensures Inv(s')
  {
    hide Inv, Open, NewThread, ExitThread;
    var t :| Open(s, s', t) || NewThread(s, s', t) || ExitThread(s, s', t) || Advance(s, s', t);
    if Open(s, s', t) {
      OpenInv(s, s', t);
    } else if NewThread(s, s', t) {
      NewThreadInv(s, s', t);
    } else if ExitThread(s, s', t) {
      ExitThreadInv(s, s', t);
    } else {
      AdvanceInv(s, s', t);
    }
  }

  lemma {:induction false} AdvanceInv(s: State, s': State, t: Tid)
    requires Inv(s) && Advance(s, s', t)
    ensures Inv(s')
  {
    hide Inv;
    match Top(s.threads[t]).phase {
      case Enter => EnterInv(s, s', t);
      case Acquire => AcquireInv(s, s', t);
      case Visit => VisitInv(s, s', t);
      case Mark => MarkInv(s, s', t);
      case Push => PushInv(s, s', t);
      case Ctor => CtorInv(s, s', t);
      case After => CtorInv(s, s', t);
      case AcquireLate => AcquireInv(s, s', t);
      case Release => ReleaseInv(s, s', t);
    }
  }

  lemma {:induction false} RunInv(run: seq<State>, n: nat)
    requires IsRun(run) && n < |run|
    ensures Inv(run[n])
  {
    hide Inv, Next, Init;
    if n == 0 {
      InitInv(run[0]);
    } else {
      RunInv(run, n - 1);
      NextInv(run[n - 1], run[n]);
    }
  }

  // ---------------------------------------------------------------- what the protocol guarantees

  lemma {:induction false} MarksGrow(run: seq<State>, n: nat, m: nat)
    requires IsRun(run) && n <= m < |run|
    ensures run[n].marks <= run[m].marks && run[n].constructed <= run[m].constructed
  {
    if n < m {
      MarksGrow(run, n, m - 1);
      assert Next(run[m - 1], run[m]);
    }
  }

  /** Thread `t` starts the constructors of DSO `i` in this step. */
  ghost predicate Starts(s: State, s': State, t: Tid, i: int) {
    && t in s.threads && s.threads[t] != []
    && Advance(s, s', t) && Top(s.threads[t]).phase == Push && Top(s.threads[t]).pos == i
  }

  /** Every start of constructors is recorded: the DSO is the one marked last. */
  lemma {:induction false} StartIsLastMark(run: seq<State>, n: nat, t: Tid, i: nat)
    requires IsRun(run) && n + 1 < |run| && Starts(run[n], run[n + 1], t, i)
    ensures run[n].marks != [] && run[n].marks[|run[n].marks| - 1] == i
    ensures NobodyPushes(run[n + 1])
  {
    RunInv(run, n);
    assert InPush(run[n], t);
    NobodyElsePushes(run[n], t);
    var s, s' := run[n], run[n + 1];
    forall u | u != t ensures !InPush(s', u) {
      assert !InPush(s, u);
    }
  }

  /** In no run are the constructors of a DSO started twice, whichever threads and nested calls do it:
      two starts are starts of different DSOs. */
  lemma {:induction false} StartedAtMostOnce(run: seq<State>, n: nat, m: nat, t: Tid, u: Tid, i: nat, j: nat)
    requires IsRun(run) && n < m && m + 1 < |run|
    requires Starts(run[n], run[n + 1], t, i) && Starts(run[m], run[m + 1], u, j)
    ensures i != j
  {
    hide Inv, Next, Advance;
    StartIsLastMark(run, n, t, i);
    StartIsLastMark(run, m, u, j);
    // nobody was pushing after step n, so another flag was set in between
    MarkedBetween(run, n + 1, m, u);
    MarksGrow(run, n, n + 1);
    MarksGrow(run, n + 1, m);
    RunInv(run, m);
    InvParts(run[m]);
    var a, b := |run[n].marks| - 1, |run[m].marks| - 1;
    assert run[m].marks[a] == run[n].marks[a];
  }

  lemma {:induction false} InvParts(s: State)
    requires Inv(s)
    ensures FiniOk(s)
  {}

  ghost predicate NobodyPushes(s: State) {
    !exists v :: InPush(s, v)
  }

  /** A DSO being pushed now, when none was earlier, was marked in the meantime. */
  lemma {:induction false} MarkedBetween(run: seq<State>, n: nat, m: nat, u: Tid)
    requires IsRun(run) && n <= m < |run| && NobodyPushes(run[n]) && InPush(run[m], u)
    ensures |run[n].marks| < |run[m].marks|
  {
    hide Inv, Next;
    if n < m {
      MarksGrow(run, n, m - 1);
      MarksGrow(run, m - 1, m);
      if InPush(run[m - 1], u) {
        MarkedBetween(run, n, m - 1, u);
      } else {
        RunInv(run, m - 1);
        EntersPush(run[m - 1], run[m], u);
      }
    }
  }

  lemma {:induction false} EntersPush(s: State, s': State, u: Tid)
    requires Inv(s) && Next(s, s') && !InPush(s, u) && InPush(s', u)
    ensures |s.marks| < |s'.marks|
  {
    hide Inv;
    var t :| Open(s, s', t) || NewThread(s, s', t) || ExitThread(s, s', t) || Advance(s, s', t);
    if Advance(s, s', t) && Top(s.threads[t]).phase == Release {
      LowerCalls(s, s', t);
    }
  }

  /** When a call of `do_init_fini` returns, every DSO from its start to the head of the list has been
      marked: its constructors have run, or are running in a call further out. */
  lemma {:induction false} NothingLeftOut(run: seq<State>, n: nat, t: Tid)
    requires IsRun(run) && n < |run| && t in run[n].threads && run[n].threads[t] != []
    requires Top(run[n].threads[t]).phase == Release
    ensures forall i :: 0 <= i <= Top(run[n].threads[t]).start ==> i in run[n].constructed
  {
    RunInv(run, n);
    assert StackOk(run[n], t);
    assert FrameOk(run[n], Top(run[n].threads[t]));
  }

  /** The fini list holds every constructed DSO with destructors once, in the reverse of the order of
      marking; only a DSO between its mark and its push may still be missing. */
  lemma {:induction false} FiniListIsReverse(run: seq<State>, n: nat) returns (marks: seq<nat>)
    requires IsRun(run) && n < |run|
    ensures marks <= run[n].marks && |run[n].marks| <= |marks| + 1
    ensures NobodyPushes(run[n]) ==> marks == run[n].marks
    ensures run[n].fini == FiniOrder(run[n].list, marks)
    ensures forall i :: i in run[n].fini <==> i in marks && i < |run[n].list| && HasDestructor(run[n].list[i])
    ensures LastMarkedFirst(run[n].fini, marks)
    ensures forall i :: i in run[n].marks <==> i in run[n].constructed
  {
    RunInv(run, n);
    var s := run[n];
    marks := if exists t :: InPush(s, t) then s.marks[..|s.marks| - 1] else s.marks;
    FiniOrderHolds(s.list, marks);
    FiniOrderReverses(s.list, marks);
  }

  /** `i` was marked later than `j`. */
  ghost predicate MarkedAfter(marks: seq<nat>, i: nat, j: nat) {
    exists x, y :: 0 <= y < x < |marks| && marks[x] == i && marks[y] == j
  }

  /** A list without repeats in which what was marked later comes first. */
  ghost predicate LastMarkedFirst(f: seq<nat>, marks: seq<nat>) {
    forall a, b :: 0 <= a < b < |f| ==> f[a] != f[b] && MarkedAfter(marks, f[a], f[b])
  }

  lemma {:induction false} FiniOrderHolds(list: seq<Dso>, marks: seq<nat>)
    ensures forall i :: i in FiniOrder(list, marks) <==> i in marks && i < |list| && HasDestructor(list[i])
  {
    if marks != [] {
      var n := |marks| - 1;
      FiniOrderHolds(list, marks[..n]);
      assert marks == marks[..n] + [marks[n]];
    }
  }

  lemma {:induction false} FiniOrderReverses(list: seq<Dso>, marks: seq<nat>)
    requires forall x, y :: 0 <= x < y < |marks| ==> marks[x] != marks[y]
    ensures LastMarkedFirst(FiniOrder(list, marks), marks)
  {
    if marks != [] {
      var n := |marks| - 1;
      var f, g := FiniOrder(list, marks), FiniOrder(list, marks[..n]);
      FiniOrderReverses(list, marks[..n]);
      FiniOrderHolds(list, marks[..n]);
      forall a, b | 0 <= a < b < |g| ensures MarkedAfter(marks, g[a], g[b]) {
        var x, y :| 0 <= y < x < |marks[..n]| && marks[..n][x] == g[a] && marks[..n][y] == g[b];
        assert marks[x] == g[a] && marks[y] == g[b];
      }
      forall b | 0 <= b < |g| ensures marks[n] != g[b] && MarkedAfter(marks, marks[n], g[b]) {
        assert g[b] in g && g[b] in marks[..n];
        var y: nat :| y < |marks[..n]| && marks[..n][y] == g[b];
        assert marks[y] == g[b];
      }
    }
  }

  // ---------------------------------------------------------------- exit

  /** The destructors of one DSO: the array backwards, then DT_FINI unless its value is zero. */
  function Destructors(d: Dso): seq<nat> {
    (if d.finiArray.Some? then Reversed(d.finiArray.value) else [])
    + (if d.fini.Some? && d.fini.value != 0 then [d.fini.value] else [])
  }

  function AllDestructors(list: seq<Dso>, fini: seq<nat>): seq<nat>
    requires forall k :: 0 <= k < |fini| ==> fini[k] < |list|
  {
    if fini == [] then [] else AllDestructors(list, fini[..|fini| - 1]) + Destructors(list[fini[|fini| - 1]])
  }

  /** A fini array, called from its end. */
  method CallBackwards(fns: seq<nat>) returns (calls: seq<nat>)
    ensures calls == Reversed(fns)
  {
    var n := |fns|;
    calls := [];
    assert fns[..n] == fns && [] + Reversed(fns) == Reversed(fns);
    while n > 0
      invariant 0 <= n <= |fns|
      invariant calls + Reversed(fns[..n]) == Reversed(fns)
    {
      assert fns[..n][..n - 1] == fns[..n - 1];
      n := n - 1;
      calls := calls + [fns[n]];
    }
  }

  /** `__libc_exit_fini`: the functions called, in order. */
  method ExitFini(list: seq<Dso>, constructed: set<nat>, fini: seq<nat>) returns (calls: seq<nat>)
    requires forall k :: 0 <= k < |fini| ==> fini[k] < |list| && fini[k] in constructed
    ensures calls == AllDestructors(list, fini)
  {
    calls := [];
    for k := 0 to |fini|
      invariant calls == AllDestructors(list, fini[..k])
    {
      assert fini[..k + 1][..k] == fini[..k];
      var p := fini[k];
      if p !in constructed {
        continue;
      }
      if list[p].finiArray.Some? {
        var back := CallBackwards(list[p].finiArray.value);
        calls := calls + back;
      }
      if list[p].fini.Some? && list[p].fini.value != 0 {
        calls := calls + [list[p].fini.value];
      }
    }
    assert fini[..|fini|] == fini;
  }

  /** What exit requires holds whenever it may happen. */
  lemma {:induction false} ExitIsPossible(run: seq<State>, n: nat, k: nat)
    requires IsRun(run) && n < |run| && k < |run[n].fini|
    ensures run[n].fini[k] < |run[n].list| && run[n].fini[k] in run[n].constructed
  {
    var marks := FiniListIsReverse(run, n);
    assert run[n].fini[k] in run[n].fini;
    assert run[n].fini[k] in marks;
  }
}
