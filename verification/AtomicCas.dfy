/** The aarch64 compare-and-swap loops `a_cas` and `a_cas_p` over load-exclusive and store-exclusive, run
    by any number of threads on one cell, against an atomic compare-and-swap.  Memory is sequentially
    consistent; a store-exclusive may fail for no reason at all. */
module AtomicCas {

  type Tid = nat

  /** Where a thread is in the loop.  `Loaded`: it read the expected value and is about to try the store;
      `Leaving`: it is out of the loop with the value it will return. */
  datatype Pc<V> = Idle | Called(t: V, s: V) | Loaded(t: V, s: V, old_: V) | Leaving(t: V, s: V, old_: V)

  /** The cell, the threads whose exclusive reservation still holds, and the threads. */
  datatype State<V> = State(cell: V, reserved: set<Tid>, pc: map<Tid, Pc<V>>)

  ghost predicate Call<V>(a: State<V>, b: State<V>, i: Tid) {
    && i in a.pc && a.pc[i].Idle? && i in b.pc && b.pc[i].Called?
    && b == a.(pc := a.pc[i := b.pc[i]])
  }

  /** The exclusive load, which reserves the cell; a value other than the expected one ends the loop. */
  ghost predicate LoadExclusive<V>(a: State<V>, b: State<V>, i: Tid) {
    && i in a.pc && a.pc[i].Called?
    && var Called(t, s) := a.pc[i];
       b == a.(reserved := a.reserved + {i},
               pc := a.pc[i := if a.cell != t then Leaving(t, s, a.cell) else Loaded(t, s, a.cell)])
  }

  /** `a_sc(p, s)` succeeds: the reservation was intact, and every thread loses its own. */
  ghost predicate StoreExclusive<V>(a: State<V>, b: State<V>, i: Tid) {
    && i in a.pc && a.pc[i].Loaded? && i in a.reserved
    && var Loaded(t, s, o) := a.pc[i];
       b == State(s, {}, a.pc[i := Leaving(t, s, o)])
  }

  /** `a_sc(p, s)` fails, with or without reason: the loop starts over. */
  ghost predicate StoreFails<V>(a: State<V>, b: State<V>, i: Tid) {
    && i in a.pc && a.pc[i].Loaded?
    && b == a.(reserved := a.reserved - {i}, pc := a.pc[i := Called(a.pc[i].t, a.pc[i].s)])
  }

  ghost predicate Return<V>(a: State<V>, b: State<V>, i: Tid) {
    i in a.pc && a.pc[i].Leaving? && b == a.(pc := a.pc[i := Idle])
  }

  /** Any other write to the cell. */
  ghost predicate OtherStore<V>(a: State<V>, b: State<V>) {
    b == a.(cell := b.cell, reserved := {})
  }

  /** A reservation is lost, by a context switch for instance. */
  ghost predicate LoseReservation<V>(a: State<V>, b: State<V>, i: Tid) {
    b == a.(reserved := a.reserved - {i})
  }

  ghost predicate StepOf<V>(a: State<V>, b: State<V>, i: Tid) {
    || Call(a, b, i) || LoadExclusive(a, b, i) || StoreExclusive(a, b, i) || StoreFails(a, b, i)
    || Return(a, b, i) || LoseReservation(a, b, i)
  }

  ghost predicate Next<V>(a: State<V>, b: State<V>) {
    OtherStore(a, b) || exists i :: StepOf(a, b, i)
  }

  ghost predicate Init<V>(a: State<V>) {
    a.reserved == {} && forall i :: i in a.pc ==> a.pc[i].Idle?
  }

  ghost predicate IsRun<V>(run: seq<State<V>>) {
    && |run| > 0 && Init(run[0])
    && forall n :: 0 <= n < |run| - 1 ==> Next(run[n], run[n + 1])
  }

  /** While a reservation holds the cell still has the value that was loaded. */
  ghost predicate Inv<V>(a: State<V>) {
    forall i :: i in a.pc && a.pc[i].Loaded? ==>
      a.pc[i].old_ == a.pc[i].t && (i in a.reserved ==> a.cell == a.pc[i].old_)
  }

  lemma {:induction false} RunInv<V>(run: seq<State<V>>, n: nat)
    requires IsRun(run) && n < |run|
    ensures Inv(run[n])
  {
    if n > 0 {
      RunInv(run, n - 1);
      assert Next(run[n - 1], run[n]);
    }
  }

  // ---------------------------------------------------------------- refinement

  /** The specification: a call is invoked, takes effect at once, and returns. */
  datatype Phase<V> = Outside | Invoked(t: V, s: V) | Done(t: V, s: V, result: V)

  datatype Atomic<V> = Atomic(cell: V, calls: map<Tid, Phase<V>>)

  /** The effect of the call at its instant. */
  ghost predicate Cas<V>(a: Atomic<V>, b: Atomic<V>, i: Tid) {
    && i in a.calls && a.calls[i].Invoked?
    && var Invoked(t, s) := a.calls[i];
       b == Atomic(if a.cell == t then s else a.cell, a.calls[i := Done(t, s, a.cell)])
  }

  ghost predicate Invoke<V>(a: Atomic<V>, b: Atomic<V>, i: Tid) {
    && i in a.calls && a.calls[i].Outside? && i in b.calls && b.calls[i].Invoked?
    && b == a.(calls := a.calls[i := b.calls[i]])
  }

  ghost predicate Finish<V>(a: Atomic<V>, b: Atomic<V>, i: Tid) {
    i in a.calls && a.calls[i].Done? && b == a.(calls := a.calls[i := Outside])
  }

  ghost predicate AtomicNext<V>(a: Atomic<V>, b: Atomic<V>) {
    || b == a.(cell := b.cell)
    || exists i :: Invoke(a, b, i) || Cas(a, b, i) || Finish(a, b, i)
  }

  function PhaseOf<V>(p: Pc<V>): Phase<V> {
    match p
    case Idle => Outside
    case Called(t, s) => Invoked(t, s)
    case Loaded(t, s, o) => Invoked(t, s)
    case Leaving(t, s, o) => Done(t, s, o)
  }

  function Abstract<V>(a: State<V>): Atomic<V> {
    Atomic(a.cell, map i | i in a.pc :: PhaseOf(a.pc[i]))
  }

  lemma {:induction false} AbstractUpdate<V>(a: State<V>, b: State<V>, i: Tid)
    requires i in a.pc && i in b.pc && b.pc == a.pc[i := b.pc[i]]
    ensures Abstract(b).calls == Abstract(a).calls[i := PhaseOf(b.pc[i])]
  {}

  /** Every step of the loops is a step of the specification or changes nothing that it sees. */
  lemma {:induction false} StepRefines<V>(a: State<V>, b: State<V>)
    requires Inv(a) && Next(a, b)
    ensures Abstract(b) == Abstract(a) || AtomicNext(Abstract(a), Abstract(b))
  {
    if !OtherStore(a, b) {
      var i :| StepOf(a, b, i);
      if i in a.pc && i in b.pc && b.pc == a.pc[i := b.pc[i]] {
        AbstractUpdate(a, b, i);
      }
      if LoadExclusive(a, b, i) && a.cell != a.pc[i].t {
        assert Cas(Abstract(a), Abstract(b), i);
      } else if StoreExclusive(a, b, i) {
        assert Cas(Abstract(a), Abstract(b), i);
      } else if Call(a, b, i) {
        assert Invoke(Abstract(a), Abstract(b), i);
      } else if Return(a, b, i) {
        assert Finish(Abstract(a), Abstract(b), i);
      }
    }
  }

  lemma {:induction false} RunRefines<V>(run: seq<State<V>>, n: nat)
    requires IsRun(run) && n + 1 < |run|
    ensures Abstract(run[n + 1]) == Abstract(run[n]) || AtomicNext(Abstract(run[n]), Abstract(run[n + 1]))
  {
    RunInv(run, n);
    StepRefines(run[n], run[n + 1]);
  }

  // ---------------------------------------------------------------- the instant of a call

  /** The step at which the call of thread `i` takes effect. */
  ghost predicate TakesEffect<V>(a: State<V>, b: State<V>, i: Tid) {
    i in a.pc && i in b.pc && (a.pc[i].Called? || a.pc[i].Loaded?) && b.pc[i].Leaving?
  }

  /** At that step the cell held the value the call returns, and the new value was written exactly when
      that value was the expected one. */
  ghost predicate IsInstant<V>(run: seq<State<V>>, k: nat, i: Tid, t: V, s: V, result: V)
    requires k + 1 < |run|
  {
    && TakesEffect(run[k], run[k + 1], i)
    && run[k].cell == result
    && run[k + 1].cell == if result == t then s else run[k].cell
  }

  /** Thread `i` is inside one call, with arguments `t` and `s`, from state `from` to state `to`. */
  ghost predicate InsideCall<V>(run: seq<State<V>>, from: nat, to: nat, i: Tid, t: V, s: V) {
    && from < to < |run|
    && (forall n :: from <= n <= to ==> i in run[n].pc)
    && run[from].pc[i].Idle?
    && (forall n :: from < n <= to ==> !run[n].pc[i].Idle?)
    && run[from + 1].pc[i] == Called(t, s)
  }

  lemma {:induction false} EffectIsRight<V>(a: State<V>, b: State<V>, i: Tid)
    requires Inv(a) && Next(a, b) && TakesEffect(a, b, i)
    ensures a.pc[i].t == b.pc[i].t && a.pc[i].s == b.pc[i].s
    ensures a.cell == b.pc[i].old_ && b.cell == if b.pc[i].old_ == b.pc[i].t then b.pc[i].s else a.cell
  {
    assert !OtherStore(a, b);
    var j :| StepOf(a, b, j);
    assert i == j;
  }

  lemma {:induction false} BusyStep<V>(a: State<V>, b: State<V>, i: Tid)
    requires Inv(a) && Next(a, b) && i in a.pc && i in b.pc && !a.pc[i].Idle? && !b.pc[i].Idle?
    ensures b.pc[i].t == a.pc[i].t && b.pc[i].s == a.pc[i].s
    ensures a.pc[i].Leaving? ==> b.pc[i] == a.pc[i]
  {
    if !OtherStore(a, b) {
      var j :| StepOf(a, b, j);
    }
  }

  /** Up to any moment inside a call: no instant yet, or exactly one. */
  ghost predicate InstantsSoFar<V>(run: seq<State<V>>, from: nat, to: nat, i: Tid, t: V, s: V)
    requires InsideCall(run, from, to, i, t, s)
  {
    if run[to].pc[i].Leaving? then
      exists k :: from < k < to && IsInstant(run, k, i, t, s, run[to].pc[i].old_)
                  && forall m :: from <= m < to && m != k ==> !TakesEffect(run[m], run[m + 1], i)
    else
      forall m :: from <= m < to ==> !TakesEffect(run[m], run[m + 1], i)
  }

  /** Every completed call has one instant between its invocation and its return at which it took effect. */
  lemma {:induction false} OneInstant<V>(run: seq<State<V>>, from: nat, to: nat, i: Tid, t: V, s: V)
    requires IsRun(run) && InsideCall(run, from, to, i, t, s)
    ensures run[to].pc[i].t == t && run[to].pc[i].s == s
    ensures InstantsSoFar(run, from, to, i, t, s)
  {
    hide Next, Inv, Init;
    if to > from + 1 {
      var p := to - 1;
      OneInstant(run, from, p, i, t, s);
      RunInv(run, p);
      assert Next(run[p], run[p + 1]);
      BusyStep(run[p], run[to], i);
      if run[p].pc[i].Leaving? {
        InstantStays(run, from, p, i, t, s);
      } else if run[to].pc[i].Leaving? {
        EffectIsRight(run[p], run[to], i);
        assert IsInstant(run, p, i, t, s, run[to].pc[i].old_);
      }
    }
  }

  lemma {:induction false} InstantStays<V>(run: seq<State<V>>, from: nat, p: nat, i: Tid, t: V, s: V)
    requires InsideCall(run, from, p, i, t, s) && InsideCall(run, from, p + 1, i, t, s)
    requires InstantsSoFar(run, from, p, i, t, s)
    requires run[p].pc[i].Leaving? && run[p + 1].pc[i] == run[p].pc[i]
    ensures InstantsSoFar(run, from, p + 1, i, t, s)
  {
    var o := run[p].pc[i].old_;
    var k :| from < k < p && IsInstant(run, k, i, t, s, o)
             && forall m :: from <= m < p && m != k ==> !TakesEffect(run[m], run[m + 1], i);
    assert !TakesEffect(run[p], run[p + 1], i);
    hide TakesEffect;
    assert from < k < p + 1 && IsInstant(run, k, i, t, s, o);
  }

  /** A call that returns: one instant, and the value returned is what the cell held then. */
  lemma {:induction false} CompletedCall<V>(run: seq<State<V>>, from: nat, to: nat, i: Tid, t: V, s: V)
      returns (k: nat)
    requires IsRun(run) && InsideCall(run, from, to, i, t, s)
    requires to + 1 < |run| && Return(run[to], run[to + 1], i)
    ensures from < k < to && IsInstant(run, k, i, t, s, run[to].pc[i].old_)
    ensures forall m :: from <= m < to && m != k ==> !TakesEffect(run[m], run[m + 1], i)
  {
    hide Next, Inv, Init, TakesEffect;
    OneInstant(run, from, to, i, t, s);
    k :| from < k < to && IsInstant(run, k, i, t, s, run[to].pc[i].old_)
         && forall m :: from <= m < to && m != k ==> !TakesEffect(run[m], run[m + 1], i);
  }
}
