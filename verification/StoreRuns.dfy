/** What holds over every interleaving of calls to the store: linearizability, no deadlock, no lost lock. */
module StoreRuns {
  import opened Common
  import opened ByteStrings
  import opened AuthIds
  import opened AuthStore
  import opened StoreThreads

  // ---------------------------------------------------------------------------
  // Linearizability
  // ---------------------------------------------------------------------------

  /** A run from the empty store. */
  predicate Reached(mac: Mac, m: Machine, actions: seq<Action>) {
    m == Run(mac, INIT, actions)
  }

  lemma ReachedInv(mac: Mac, m: Machine, actions: seq<Action>)
    requires Reached(mac, m, actions)
    ensures Inv(mac, m)
  {
    hide Inv, Run;
    InitInv(mac);
    RunKeeps(mac, INIT, actions);
  }

  /** Every finished call has exactly one place in one sequential run of the atomic store that explains all results
      and the contents. */
  lemma Linearizable(mac: Mac, m: Machine, actions: seq<Action>, u: Tid)
    requires Reached(mac, m, actions) && u in m.threads && m.threads[u].local.Done?
    ensures Legal(m.history) && m.store == Replay(m.history)
    ensures u in m.point && m.point[u] < |m.history|
    ensures var e := m.history[m.point[u]];
            e.tid == u && Performs(e.op, m.threads[u].call) && e.result == m.threads[u].local.result
    ensures forall k :: 0 <= k < |m.history| && m.history[k].tid == u ==> k == m.point[u]
  {
    hide Reached, Legal, Replay, LocksOk, LocalsOk, IdsStored;
    ReachedInv(mac, m, actions);
    assert EventOk(m, u);
  }

  /** What later steps leave alone. */
  predicate Continues(m: Machine, later: Machine) {
    && m.history <= later.history
    && (forall u <- m.point :: u in later.point && later.point[u] == m.point[u])
    && (forall u <- m.threads :: u in later.threads && later.threads[u].since == m.threads[u].since)
    && (forall u <- later.threads :: u in m.threads || later.threads[u].since >= |m.history|)
  }

  lemma MovesContinues(mac: Mac, m: Machine, after: Machine, tid: Tid)
    requires tid in m.threads && EventOk(m, tid) && Moves(mac, m, after, tid)
    ensures Continues(m, after)
  {
    hide MovesLocks, OpAt, Apply, Decided, ResultOf, Performs;
  }

  lemma StepContinues(mac: Mac, m: Machine, action: Action)
    requires Inv(mac, m)
    ensures Continues(m, Step(mac, m, action))
  {
    hide Advance, LocksOk, IdsStored, Replay, Legal, Moves, EventOk, LocalOk;
    match action
    case Spawn(tid, call) =>
    case Advancing(tid) =>
      if tid in m.threads && Advance(mac, m, tid).Some? {
        assert LocalOk(m, m.threads[tid]) && EventOk(m, tid);
        AdvanceMoves(mac, m, tid);
        MovesContinues(mac, m, Advance(mac, m, tid).value, tid);
      }
  }

  lemma ContinuesTrans(a: Machine, b: Machine, c: Machine)
    requires Continues(a, b) && Continues(b, c)
    ensures Continues(a, c)
  {}

  lemma {:induction false} RunContinues(mac: Mac, m: Machine, actions: seq<Action>)
    requires Inv(mac, m)
    ensures Continues(m, Run(mac, m, actions))
    decreases |actions|
  {
    hide Step, Inv;
    if actions == [] {
    } else {
      var next := Step(mac, m, actions[0]);
      StepKeeps(mac, m, actions[0]);
      StepContinues(mac, m, actions[0]);
      RunContinues(mac, next, actions[1..]);
      ContinuesTrans(m, next, Run(mac, next, actions[1..]));
    }
  }

  /** A call that ended before another began takes effect first. */
  lemma RealTimeOrder(mac: Mac, m: Machine, actions: seq<Action>, more: seq<Action>, a: Tid, b: Tid)
    requires Reached(mac, m, actions) && a in m.threads && m.threads[a].local.Done? && b !in m.threads
    requires var later := Run(mac, m, more); b in later.threads && later.threads[b].local.Done?
    ensures var later := Run(mac, m, more);
            a in later.point && b in later.point && later.point[a] < later.point[b]
  {
    hide Reached, Run, LocksOk, LocalsOk, IdsStored, Replay, Legal;
    var later := Run(mac, m, more);
    ReachedInv(mac, m, actions);
    RunKeeps(mac, m, more);
    RunContinues(mac, m, more);
    assert EventOk(m, a) && EventOk(later, b);
  }

  // ---------------------------------------------------------------------------
  // What no result tells of
  // ---------------------------------------------------------------------------

  /** No result tells of a duplicate ID, whose early return keeps the state lock. */
  predicate Clean(history: seq<Event>) {
    forall k :: 0 <= k < |history| ==> history[k].result != Refused(DuplicateId)
  }

  /** No result tells of a missing session. */
  predicate SessionsFound(history: seq<Event>) {
    forall k :: 0 <= k < |history| ==> !history[k].result.NilState?
  }

  lemma EffectFound(mac: Mac, m: Machine, t: Thread)
    requires LocalOk(m, t) && Coherent(m.store)
    ensures !Apply(m.store, OpAt(mac, m, t)).1.NilState?
  {
    hide Id, Coherent, Apply;
    ApplyKeeps(m.store, OpAt(mac, m, t));
  }

  lemma StepFinds(mac: Mac, m: Machine, action: Action)
    requires Inv(mac, m) && SessionsFound(m.history)
    ensures SessionsFound(Step(mac, m, action).history)
  {
    hide Advance, LocksOk, IdsStored, HistoryOk, Coherent, MovesLocks, OpAt, Apply, LocalOk, Decided, ResultOf;
    if action.Advancing? && action.tid in m.threads && Advance(mac, m, action.tid).Some? {
      assert LocalOk(m, m.threads[action.tid]);
      AdvanceMoves(mac, m, action.tid);
      EffectFound(mac, m, m.threads[action.tid]);
    }
  }

  lemma {:induction false} RunFinds(mac: Mac, m: Machine, actions: seq<Action>)
    requires Inv(mac, m) && SessionsFound(m.history)
    ensures SessionsFound(Run(mac, m, actions).history)
    decreases |actions|
  {
    hide Inv, Step, SessionsFound;
    if actions != [] {
      StepKeeps(mac, m, actions[0]);
      StepFinds(mac, m, actions[0]);
      RunFinds(mac, Step(mac, m, actions[0]), actions[1..]);
    }
  }

  /** Over every run the session of a code is there: the nil dereference of a missing one never happens. */
  lemma NoMissingSession(mac: Mac, m: Machine, actions: seq<Action>)
    requires Reached(mac, m, actions)
    ensures SessionsFound(m.history)
  {
    hide Run, Inv;
    InitInv(mac);
    RunFinds(mac, INIT, actions);
  }

  lemma CreateDecides(mac: Mac, m: Machine, tid: Tid)
    requires tid in m.threads && LocalOk(m, m.threads[tid]) && Advance(mac, m, tid).Some?
    requires m.threads[tid].call.CallCreate? && !m.threads[tid].local.CreateHolding?
    ensures var after := Advance(mac, m, tid).value;
            tid in after.threads && (Decided(after.threads[tid].local) ==> Decided(m.threads[tid].local))
  {
    hide CreateStep, IssueStep, IssueBothStep, RedeemReadStep, RedeemStep, Id;
  }

  lemma EffectClean(mac: Mac, m: Machine, u: Tid)
    requires IdsFree(mac, m) && u in m.threads
    requires m.threads[u].call.CallCreate? ==> m.threads[u].local.CreateHolding?
    ensures Apply(m.store, OpAt(mac, m, m.threads[u])).1 != Refused(DuplicateId)
  {
    hide Id, NoCollision;
    assert Pending(m.threads[u].local).Some? ==> Id(mac, m.times, m.threads[u].local.n) !in m.store.states;
  }

  lemma StepClean(mac: Mac, m: Machine, action: Action)
    requires Inv(mac, m) && IdsFree(mac, m) && Clean(m.history)
    ensures Clean(Step(mac, m, action).history)
  {
    hide Advance, LocksOk, IdsStored, IdsFree, HistoryOk, Coherent, MovesLocks, OpAt, Apply, LocalOk, Decided, ResultOf;
    if action.Advancing? && action.tid in m.threads && Advance(mac, m, action.tid).Some? {
      var t := m.threads[action.tid];
      assert LocalOk(m, t);
      AdvanceMoves(mac, m, action.tid);
      if t.call.CallCreate? && !t.local.CreateHolding? {
        CreateDecides(mac, m, action.tid);
      } else {
        EffectClean(mac, m, action.tid);
      }
    }
  }

  lemma {:induction false} RunClean(mac: Mac, m: Machine, actions: seq<Action>)
    requires Inv(mac, m) && IdsFree(mac, m) && Clean(m.history) && NoCollision(Run(mac, m, actions).times)
    ensures Clean(Run(mac, m, actions).history) && IdsFree(mac, Run(mac, m, actions))
    decreases |actions|
  {
    hide Inv, IdsFree, Step, Clean, NoCollision;
    if actions != [] {
      var next := Step(mac, m, actions[0]);
      RunTimes(mac, next, actions[1..]);
      PrefixNoCollision(next.times, Run(mac, m, actions).times);
      StepKeeps(mac, m, actions[0]);
      StepKeepsFree(mac, m, actions[0]);
      StepClean(mac, m, actions[0]);
      RunClean(mac, next, actions[1..]);
    }
  }

  /** Over every run whose clock readings do not collide the early return of CreateNewAuthSession is unreachable. */
  lemma EarlyReturnUnreachable(mac: Mac, m: Machine, actions: seq<Action>)
    requires Reached(mac, m, actions) && NoCollision(m.times)
    ensures Clean(m.history)
  {
    hide Run, Inv, NoCollision;
    InitInv(mac);
    InitFree(mac);
    RunClean(mac, INIT, actions);
  }

  // ---------------------------------------------------------------------------
  // No lock is lost
  // ---------------------------------------------------------------------------

  /** A clean history leaves no call that kept the lock, and only such a history does. */
  lemma CleanThreads(m: Machine)
    requires HistoryOk(m)
    ensures Clean(m.history) <==>
              forall u <- m.threads ::
                Decided(m.threads[u].local) ==> ResultOf(m.threads[u].local) != Refused(DuplicateId)
  {
    hide Replay, Legal, Performs;
    forall u <- m.threads
      ensures Decided(m.threads[u].local) ==>
                m.point[u] < |m.history| && m.history[m.point[u]].result == ResultOf(m.threads[u].local)
    {
      assert EventOk(m, u);
    }
    forall k | 0 <= k < |m.history|
      ensures var u := m.history[k].tid;
              && u in m.threads && Decided(m.threads[u].local)
              && m.history[k].result == ResultOf(m.threads[u].local)
    {
      assert EventOk(m, m.history[k].tid);
    }
  }

  /** When every call has ended, the code lock is free, and the state lock is if and only if no call met a
      duplicate ID. */
  lemma LocksReleased(mac: Mac, m: Machine, actions: seq<Action>)
    requires Reached(mac, m, actions) && forall u <- m.threads :: m.threads[u].local.Done?
    ensures m.codeWriter == None && m.codeReaders == {}
    ensures m.stateLock == None <==> Clean(m.history)
  {
    hide Reached, LocalsOk, IdsStored, HistoryOk, Clean;
    ReachedInv(mac, m, actions);
    CleanThreads(m);
    forall u <- m.threads
      ensures u !in m.codeReaders
    {
      assert !ReadsCodes(m.threads[u].local);
    }
  }

  /** The step of a call may run while every other step of the run waits: a writer in line also keeps readers out. */
  predicate CanStep(mac: Mac, m: Machine, u: Tid)
    requires u in m.threads
  {
    && Advance(mac, m, u).Some?
    && (m.threads[u].local.Start? && m.threads[u].call.CallRedeem? ==>
          forall w <- m.threads :: !m.threads[w].local.IssueWaiting?)
  }

  lemma InsideCodesCanStep(mac: Mac, m: Machine, u: Tid)
    requires LocalsOk(m) && u in m.threads
    requires WritesCodes(m.threads[u].local) || ReadsCodes(m.threads[u].local)
    ensures CanStep(mac, m, u)
  {
    hide Id;
    assert LocalOk(m, m.threads[u]);
  }

  lemma InsideStateCanStep(mac: Mac, m: Machine, u: Tid)
    requires LocalsOk(m) && u in m.threads && HoldsState(m.threads[u].local) && !m.threads[u].local.Done?
    requires m.codeWriter.None? && m.codeReaders == {}
    ensures CanStep(mac, m, u)
  {
    hide Id, RedeemSession;
    assert LocalOk(m, m.threads[u]);
  }

  lemma OutsideCanStep(mac: Mac, m: Machine, u: Tid)
    requires LocksOk(m) && LocalsOk(m) && u in m.threads && !m.threads[u].local.Done?
    requires m.stateLock.None? && m.codeWriter.None? && m.codeReaders == {}
    ensures CanStep(mac, m, u)
  {
    hide Id, CreateStep, IssueStep, IssueBothStep, RedeemReadStep, RedeemStep;
    assert !HoldsState(m.threads[u].local) && !ReadsCodes(m.threads[u].local);
    assert LocalOk(m, m.threads[u]);
    assert forall w <- m.threads :: !HoldsState(m.threads[w].local);
  }

  /** No deadlock: while a call has not ended, some call can step, as long as none met a duplicate ID. */
  lemma Progress(mac: Mac, m: Machine, u: Tid) returns (w: Tid)
    requires Inv(mac, m) && Clean(m.history) && u in m.threads && !m.threads[u].local.Done?
    ensures w in m.threads && CanStep(mac, m, w)
  {
    hide CanStep, IdsStored, HistoryOk, Coherent, LocalsOk, Clean;
    CleanThreads(m);
    if m.codeWriter.Some? {
      w := m.codeWriter.value;
      InsideCodesCanStep(mac, m, w);
    } else if m.codeReaders != {} {
      w :| w in m.codeReaders;
      InsideCodesCanStep(mac, m, w);
    } else if m.stateLock.Some? {
      w := m.stateLock.value;
      InsideStateCanStep(mac, m, w);
    } else {
      w := u;
      OutsideCanStep(mac, m, w);
    }
  }

  // ---------------------------------------------------------------------------
  // Every call ends
  // ---------------------------------------------------------------------------

  /** How many steps a call can still take at most. */
  function Rank(local: Local): nat {
    match local
    case Start => 6
    case CreateWaiting(_) => 3
    case CreateHolding(_) => 2
    case IssueHolding => 5
    case IssueWaiting => 4
    case IssueHoldingBoth => 3
    case IssueUnlockingCode(_) => 2
    case RedeemReading => 5
    case RedeemRead(_) => 4
    case RedeemWaiting(_) => 3
    case RedeemHolding(_) => 2
    case Unlocking(_) => 1
    case Done(_) => 0
  }

  ghost function Total(threads: map<Tid, Thread>): nat
    decreases |threads|
  {
    if threads == map[] then 0
    else
      var u :| u in threads;
      assert |threads - {u}| < |threads| by { Smaller(threads, u); }
      Rank(threads[u].local) + Total(threads - {u})
  }

  lemma Smaller(threads: map<Tid, Thread>, u: Tid)
    requires u in threads
    ensures |threads - {u}| == |threads| - 1
  {
    assert (threads - {u}).Keys == threads.Keys - {u};
    assert |threads - {u}| == |(threads - {u}).Keys| && |threads| == |threads.Keys|;
  }

  lemma {:induction false} TotalOf(threads: map<Tid, Thread>, u: Tid)
    requires u in threads
    ensures Total(threads) == Rank(threads[u].local) + Total(threads - {u})
    decreases |threads|
  {
    hide Rank;
    var w :| w in threads && Total(threads) == Rank(threads[w].local) + Total(threads - {w});
    if w != u {
      Smaller(threads, w);
      Smaller(threads, u);
      TotalOf(threads - {w}, u);
      TotalOf(threads - {u}, w);
      assert threads - {w} - {u} == threads - {u} - {w};
    }
  }

  lemma RankInside(mac: Mac, m: Machine, tid: Tid)
    requires tid in m.threads && Advance(mac, m, tid).Some? && !LockStep(m.threads[tid].local)
    ensures var after := Advance(mac, m, tid).value;
            tid in after.threads && Rank(after.threads[tid].local) < Rank(m.threads[tid].local)
  {
    hide Id, RedeemSession;
  }

  lemma AdvanceRank(mac: Mac, m: Machine, tid: Tid)
    requires tid in m.threads && Advance(mac, m, tid).Some?
    ensures var after := Advance(mac, m, tid).value;
            tid in after.threads && Rank(after.threads[tid].local) < Rank(m.threads[tid].local)
  {
    hide CreateStep, IssueStep, IssueBothStep, RedeemReadStep, RedeemStep;
    if !LockStep(m.threads[tid].local) {
      RankInside(mac, m, tid);
    }
  }

  /** Every step leaves fewer steps to take. */
  lemma AdvanceTotal(mac: Mac, m: Machine, tid: Tid)
    requires Inv(mac, m) && tid in m.threads && Advance(mac, m, tid).Some?
    ensures Total(Advance(mac, m, tid).value.threads) < Total(m.threads)
  {
    hide Advance, LocksOk, IdsStored, HistoryOk, MovesLocks, OpAt, Apply, Rank, Total;
    var after := Advance(mac, m, tid).value;
    assert LocalOk(m, m.threads[tid]);
    AdvanceMoves(mac, m, tid);
    AdvanceRank(mac, m, tid);
    TotalOf(m.threads, tid);
    TotalOf(after.threads, tid);
    assert after.threads - {tid} == m.threads - {tid};
  }

  /** Every call has ended, or IDs have collided. */
  predicate Settled(m: Machine) {
    (forall u <- m.threads :: m.threads[u].local.Done?) || !NoCollision(m.times)
  }

  lemma RunNothing(mac: Mac, m: Machine)
    ensures Run(mac, m, []) == m
  {}

  lemma RunStep(mac: Mac, m: Machine, action: Action, rest: seq<Action>)
    ensures Run(mac, m, [action] + rest) == Run(mac, Step(mac, m, action), rest)
  {
    hide Step;
    assert ([action] + rest)[1..] == rest;
  }

  /** In an unsettled state some call can step. */
  lemma Unsettled(mac: Mac, m: Machine) returns (w: Tid)
    requires Inv(mac, m) && Clean(m.history) && !Settled(m)
    ensures w in m.threads && Advance(mac, m, w).Some? && Step(mac, m, Advancing(w)) == Advance(mac, m, w).value
    ensures Total(Advance(mac, m, w).value.threads) < Total(m.threads)
  {
    hide Inv, Clean, NoCollision, Advance, Total;
    var u :| u in m.threads && !m.threads[u].local.Done?;
    w := Progress(mac, m, u);
    AdvanceTotal(mac, m, w);
  }

  /** From every reachable state the pending calls can all end, within the steps they have left, unless the IDs they
      take collide. */
  lemma {:induction false} Finishes(mac: Mac, m: Machine) returns (actions: seq<Action>)
    requires Inv(mac, m) && IdsFree(mac, m) && Clean(m.history)
    ensures |actions| <= Total(m.threads) && forall i :: 0 <= i < |actions| ==> actions[i].Advancing?
    ensures Settled(Run(mac, m, actions))
    decreases Total(m.threads)
  {
    hide Inv, IdsFree, Clean, Settled, Run, Step, Advance, Total, NoCollision;
    if Settled(m) {
      actions := [];
      RunNothing(mac, m);
    } else {
      var w := Unsettled(mac, m);
      var after := Step(mac, m, Advancing(w));
      var rest := FinishesAfter(mac, m, w);
      actions := [Advancing(w)] + rest;
      RunStep(mac, m, Advancing(w), rest);
    }
  }

  /** The same after one step of a call. */
  lemma {:induction false} FinishesAfter(mac: Mac, m: Machine, w: Tid) returns (rest: seq<Action>)
    requires Inv(mac, m) && IdsFree(mac, m) && Clean(m.history)
    requires Total(Step(mac, m, Advancing(w)).threads) < Total(m.threads)
    ensures |rest| < Total(m.threads) && forall i :: 0 <= i < |rest| ==> rest[i].Advancing?
    ensures Settled(Run(mac, Step(mac, m, Advancing(w)), rest))
    decreases Total(m.threads), 0
  {
    hide Inv, IdsFree, Clean, Settled, Run, Step, Total, NoCollision;
    var after := Step(mac, m, Advancing(w));
    if NoCollision(after.times) {
      StepKeeps(mac, m, Advancing(w));
      StepKeepsFree(mac, m, Advancing(w));
      StepClean(mac, m, Advancing(w));
      rest := Finishes(mac, after);
    } else {
      rest := [];
      RunNothing(mac, after);
      CollidedIsSettled(after);
    }
  }

  lemma CollidedIsSettled(m: Machine)
    requires !NoCollision(m.times)
    ensures Settled(m)
  {}

  // ---------------------------------------------------------------------------
  // Calls one after the other
  // ---------------------------------------------------------------------------

  /** No other call is inside a lock. */
  predicate Alone(m: Machine, tid: Tid) {
    forall w <- m.threads :: w != tid ==>
      var local := m.threads[w].local; !HoldsState(local) && !WritesCodes(local) && !ReadsCodes(local)
  }

  lemma AloneLocks(m: Machine, tid: Tid)
    requires LocksOk(m) && Alone(m, tid)
    ensures m.stateLock.None? || m.stateLock == Some(tid)
    ensures m.codeWriter.None? || m.codeWriter == Some(tid)
    ensures m.codeReaders <= {tid}
  {}

  lemma AloneCanStep(mac: Mac, m: Machine, tid: Tid)
    requires LocksOk(m) && LocalsOk(m) && tid in m.threads && Alone(m, tid) && !m.threads[tid].local.Done?
    ensures Advance(mac, m, tid).Some?
  {
    hide Advance, LocalsOk, Alone;
    AloneLocks(m, tid);
    var local := m.threads[tid].local;
    if WritesCodes(local) || ReadsCodes(local) {
      InsideCodesCanStep(mac, m, tid);
    } else {
      assert m.codeReaders == {};
      if HoldsState(local) {
        InsideStateCanStep(mac, m, tid);
      } else {
        OutsideCanStep(mac, m, tid);
      }
    }
  }

  /** A call alone in the store has the effect of one operation of the atomic store, if it had none before. */
  predicate Effects(m: Machine, final: Machine, tid: Tid, op: Op)
    requires tid in m.threads
  {
    && tid in final.threads && final.threads[tid].local.Done? && final.threads[tid].call == m.threads[tid].call
    && final.threads == m.threads[tid := final.threads[tid]] && Alone(final, tid)
    && if Decided(m.threads[tid].local) then
         final.store == m.store && final.threads[tid].local.result == ResultOf(m.threads[tid].local)
       else
         && Performs(op, m.threads[tid].call)
         && (final.store, final.threads[tid].local.result) == Apply(m.store, op)
  }

  lemma EffectsStep(mac: Mac, m: Machine, after: Machine, final: Machine, tid: Tid, op: Op) returns (effect: Op)
    requires tid in m.threads && Simulates(mac, m, after, tid) && Effects(after, final, tid, op)
    ensures Effects(m, final, tid, effect)
  {
    hide Apply, Decided, ResultOf, Performs, OpAt, Alone;
    var t := m.threads[tid];
    effect := op;
    if Decided(after.threads[tid].local) && !Decided(t.local) {
      effect := OpAt(mac, m, t);
      OpPerforms(mac, m, t);
    }
  }

  lemma StaysAlone(mac: Mac, m: Machine, after: Machine, tid: Tid)
    requires tid in m.threads && Alone(m, tid) && Simulates(mac, m, after, tid)
    ensures Alone(after, tid)
  {
    hide Apply, OpAt, HoldsState, WritesCodes, ReadsCodes;
  }

  lemma {:induction false} EndsAlone(mac: Mac, m: Machine, tid: Tid) returns (actions: seq<Action>, op: Op)
    requires Inv(mac, m) && tid in m.threads && Alone(m, tid)
    ensures Effects(m, Run(mac, m, actions), tid, op)
    ensures Inv(mac, Run(mac, m, actions))
    decreases Rank(m.threads[tid].local)
  {
    hide Advance, Moves, LocksOk, LocalsOk, IdsStored, HistoryOk, Coherent, Alone, Apply, Decided, Simulates;
    if m.threads[tid].local.Done? {
      actions, op := [], OpRedeem([]);
      DoneDecided(m.threads[tid].local);
    } else {
      AloneCanStep(mac, m, tid);
      var after := Advance(mac, m, tid).value;
      AdvanceRank(mac, m, tid);
      AdvanceKeeps(mac, m, tid);
      ThreadFollows(mac, m, tid);
      StaysAlone(mac, m, after, tid);
      var rest, later := EndsAlone(mac, after, tid);
      actions := [Advancing(tid)] + rest;
      assert actions[1..] == rest && Step(mac, m, actions[0]) == after;
      op := EffectsStep(mac, m, after, Run(mac, after, rest), tid, later);
    }
  }

  lemma DoneDecided(local: Local)
    requires local.Done?
    ensures Decided(local) && ResultOf(local) == local.result
  {}

  lemma ThreadFollows(mac: Mac, m: Machine, tid: Tid)
    requires Inv(mac, m) && tid in m.threads && Advance(mac, m, tid).Some?
    ensures Simulates(mac, m, Advance(mac, m, tid).value, tid)
  {
    hide Advance, LocksOk, IdsStored, HistoryOk, MovesLocks, Simulates, LocalOk;
    assert LocalOk(m, m.threads[tid]);
    AdvanceMoves(mac, m, tid);
  }

  /** No call is inside a lock. */
  predicate Quiet(m: Machine) {
    forall w <- m.threads ::
      var local := m.threads[w].local; !HoldsState(local) && !WritesCodes(local) && !ReadsCodes(local)
  }

  /** In a quiet store a new call runs to its end with exactly the effect of its operation on the atomic store, and
      leaves the store quiet unless it met a duplicate ID. */
  lemma RunsToEnd(mac: Mac, m: Machine, tid: Tid, call: Call) returns (actions: seq<Action>, op: Op)
    requires Inv(mac, m) && Quiet(m) && tid !in m.threads && Begins(call)
    ensures var final := Run(mac, m, actions);
            && Inv(mac, final)
            && tid in final.threads && final.threads == m.threads[tid := final.threads[tid]]
            && final.threads[tid].call == call && final.threads[tid].local.Done? && Performs(op, call)
            && (final.store, final.threads[tid].local.result) == Apply(m.store, op)
            && (Quiet(final) <==> final.threads[tid].local.result != Refused(DuplicateId))
  {
    hide Inv, Apply, Performs, HoldsState, WritesCodes, ReadsCodes;
    var started := Spawned(m, tid, call);
    SpawnKeeps(mac, m, tid, call);
    var rest;
    rest, op := EndsAlone(mac, started, tid);
    actions := [Spawn(tid, call)] + rest;
    assert actions[1..] == rest && Step(mac, m, actions[0]) == started;
    DoneOutside(Run(mac, m, actions).threads[tid].local);
  }

  lemma DoneOutside(local: Local)
    requires local.Done?
    ensures !WritesCodes(local) && !ReadsCodes(local)
    ensures HoldsState(local) <==> local.result == Refused(DuplicateId)
  {}

  lemma {:induction false} RunAppend(mac: Mac, m: Machine, first: seq<Action>, more: seq<Action>)
    ensures Run(mac, m, first + more) == Run(mac, Run(mac, m, first), more)
    decreases |first|
  {
    hide Step;
    if first == [] {
      assert [] + more == more;
    } else {
      assert (first + more)[1..] == first[1..] + more;
      RunAppend(mac, Step(mac, m, first[0]), first[1..], more);
    }
  }

  /** Three calls that have ended: a session opened, given a code and redeemed under it, which yields what was put
      in. */
  predicate SessionDone(m: Machine, id: Bytes, state: AuthState, timeNow: Uint64, code: Bytes) {
    && m.threads.Keys == {0, 1, 2}
    && m.threads[0].call == CallCreate(state, timeNow) && m.threads[0].local == Done(Created(id))
    && m.threads[1].call == CallIssue(id, code) && m.threads[1].local == Done(Issued(code))
    && m.threads[2].call == CallRedeem(code)
    && m.threads[2].local == Done(Redeemed(state.(issued := true, redeemed := true), id))
  }

  /** Every session can be opened, given a code and redeemed. */
  lemma SessionCompletes(mac: Mac, state: AuthState, timeNow: Uint64, code: Bytes)
    returns (m: Machine, actions: seq<Action>, id: Bytes)
    requires !state.issued && !state.redeemed
    ensures Reached(mac, m, actions) && SessionDone(m, id, state, timeNow, code)
  {
    hide Inv, Quiet, Run;
    InitInv(mac);
    QuietAtStart();
    var opening, create := RunsToEnd(mac, INIT, 0, CallCreate(state, timeNow));
    var withSession := Run(mac, INIT, opening);
    id := create.id;
    var issuing, issue := RunsToEnd(mac, withSession, 1, CallIssue(id, code));
    var withCode := Run(mac, withSession, issuing);
    var redeeming, redeem := RunsToEnd(mac, withCode, 2, CallRedeem(code));
    m := Run(mac, withCode, redeeming);
    RunAppend(mac, INIT, opening, issuing);
    RunAppend(mac, INIT, opening + issuing, redeeming);
    actions := opening + issuing + redeeming;
  }

  lemma QuietAtStart()
    ensures Quiet(INIT)
  {}

  // ---------------------------------------------------------------------------
  // A lost lock
  // ---------------------------------------------------------------------------

  /** The state lock belongs to a call that ended on a duplicate ID. */
  predicate LockLost(m: Machine, u: Tid) {
    && u in m.threads && m.threads[u].local == Done(Refused(DuplicateId)) && m.stateLock == Some(u)
    && forall w <- m.threads :: w != u ==> !HoldsState(m.threads[w].local)
  }

  /** Over every run, a call that met a duplicate ID has lost the lock. */
  lemma DuplicateLosesLock(mac: Mac, m: Machine, actions: seq<Action>, u: Tid)
    requires Reached(mac, m, actions) && u in m.threads && m.threads[u].local == Done(Refused(DuplicateId))
    ensures LockLost(m, u)
  {
    hide Reached, LocalsOk, IdsStored, HistoryOk, Coherent;
    ReachedInv(mac, m, actions);
  }

  lemma LostLockStays(mac: Mac, m: Machine, u: Tid, action: Action)
    requires LockLost(m, u)
    ensures LockLost(Step(mac, m, action), u)
  {
    hide Id, CreateStep, IssueStep, IssueBothStep, RedeemStep;
  }

  /** Once lost, the state lock is never free again, so no later call gets past it. */
  lemma {:induction false} LostLockIsForever(mac: Mac, m: Machine, u: Tid, actions: seq<Action>)
    requires LockLost(m, u)
    ensures LockLost(Run(mac, m, actions), u)
    decreases |actions|
  {
    hide Step, LockLost;
    if actions != [] {
      LostLockStays(mac, m, u, actions[0]);
      LostLockIsForever(mac, Step(mac, m, actions[0]), u, actions[1..]);
    }
  }

  /** The actions of one session opened by itself. */
  function Opening(tid: Tid, call: Call): seq<Action> {
    [Spawn(tid, call), Advancing(tid), Advancing(tid), Advancing(tid), Advancing(tid)]
  }

  /** The state lock is free, every call has ended, and the first k readings have each left a session. */
  predicate OpenedUpTo(mac: Mac, m: Machine, times: seq<Uint64>, k: nat)
    requires k <= |times|
  {
    && m.stateLock.None? && m.times == times[..k]
    && (forall w <- m.threads :: w < k && !HoldsState(m.threads[w].local))
    && (forall n :: 0 <= n < k ==> Id(mac, times, n) in m.store.states)
    && (forall id <- m.store.states :: exists n :: 0 <= n < k && id == Id(mac, times, n))
  }

  /** An opening stores its session under a new ID, and loses the state lock on one that is taken. */
  lemma OpeningSteps(mac: Mac, m: Machine, tid: Tid, call: Call)
    requires m.stateLock.None? && tid !in m.threads && call.CallCreate? && Begins(call)
    ensures var final := Run(mac, m, Opening(tid, call));
            var id := AuthId(mac, |m.times|, call.timeNow);
            && final.times == m.times + [call.timeNow]
            && tid in final.threads && final.threads == m.threads[tid := final.threads[tid]]
            && if id in m.store.states then
                 && final.threads[tid].local == Done(Refused(DuplicateId))
                 && final.stateLock == Some(tid) && final.store == m.store
               else
                 && final.threads[tid].local == Done(Created(id))
                 && final.stateLock.None? && final.store == m.store.(states := m.store.states[id := call.state])
  {
    hide AuthId, IssueStep, IssueBothStep, RedeemReadStep, RedeemStep;
    var n := |m.times|;
    var m1 := Spawned(m, tid, call);
    assert Step(mac, m, Spawn(tid, call)) == m1;
    var m2 := Go(m1, tid, CreateWaiting(n)).(times := m.times + [call.timeNow]);
    assert Step(mac, m1, Advancing(tid)) == m2;
    var m3 := Go(m2, tid, CreateHolding(n)).(stateLock := Some(tid));
    assert Step(mac, m2, Advancing(tid)) == m3;
    FiveSteps(mac, m, Spawn(tid, call), Advancing(tid), m1, m2, m3);
    hide Step;
    CreateEnds(mac, m3, tid, n);
  }

  /** The last two steps of an opening. */
  lemma CreateEnds(mac: Mac, m: Machine, tid: Tid, n: nat)
    requires tid in m.threads && m.threads[tid].local == CreateHolding(n) && m.threads[tid].call.CallCreate?
    requires n < |m.times| && m.stateLock == Some(tid)
    ensures var a := Advancing(tid);
            var final := Step(mac, Step(mac, m, a), a);
            var id, state := Id(mac, m.times, n), m.threads[tid].call.state;
            && final.times == m.times
            && tid in final.threads && final.threads == m.threads[tid := final.threads[tid]]
            && if id in m.store.states then
                 && final.threads[tid].local == Done(Refused(DuplicateId))
                 && final.stateLock == Some(tid) && final.store == m.store
               else
                 && final.threads[tid].local == Done(Created(id))
                 && final.stateLock.None? && final.store == m.store.(states := m.store.states[id := state])
  {
    hide Id;
    var id, state := Id(mac, m.times, n), m.threads[tid].call.state;
    var after := Step(mac, m, Advancing(tid));
    if id in m.store.states {
      var refused := Refused(DuplicateId);
      assert after == Take(m, tid, OpCreate(id, state), (m.store, refused), Done(refused));
    } else {
      var store := m.store.(states := m.store.states[id := state]);
      assert after == Take(m, tid, OpCreate(id, state), (store, Created(id)), Unlocking(Created(id)));
    }
  }

  lemma FiveSteps(mac: Mac, m: Machine, first: Action, a: Action, m1: Machine, m2: Machine, m3: Machine)
    requires Step(mac, m, first) == m1 && Step(mac, m1, a) == m2 && Step(mac, m2, a) == m3
    ensures Run(mac, m, [first, a, a, a, a]) == Step(mac, Step(mac, m3, a), a)
  {
    hide Step;
    assert [first, a, a, a, a][1..] == [a, a, a, a];
    assert [a, a, a, a][1..] == [a, a, a] && [a, a, a][1..] == [a, a] && [a, a][1..] == [a] && [a][1..] == [];
    assert Run(mac, m3, [a, a]) == Step(mac, Step(mac, m3, a), a) by {
      var m4 := Step(mac, m3, a);
      assert Run(mac, m4, [a]) == Run(mac, Step(mac, m4, a), []);
    }
    assert Run(mac, m2, [a, a, a]) == Run(mac, m3, [a, a]);
    assert Run(mac, m1, [a, a, a, a]) == Run(mac, m2, [a, a, a]);
  }

  lemma OpensOne(mac: Mac, m: Machine, times: seq<Uint64>, k: nat, state: AuthState)
    requires k < |times| && OpenedUpTo(mac, m, times, k) && !state.issued && !state.redeemed
    ensures var final := Run(mac, m, Opening(k, CallCreate(state, times[k])));
            if NoCollision(times[..k + 1]) then OpenedUpTo(mac, final, times, k + 1)
            else NoCollision(times[..k]) ==> LockLost(final, k) && final.times == times[..k + 1]
  {
    hide AuthId, Run, NoCollision;
    var call := CallCreate(state, times[k]);
    var final := Run(mac, m, Opening(k, call));
    OpeningSteps(mac, m, k, call);
    assert times[..k + 1] == times[..k] + [times[k]];
    var id := Id(mac, times, k);
    if NoCollision(times[..k + 1]) {
      NewAtEnd(mac, times, k);
      assert id !in m.store.states;
      forall n | 0 <= n < k + 1
        ensures Id(mac, times, n) in final.store.states
      {
        if n < k {
          assert Id(mac, times, n) in m.store.states;
        }
      }
      forall other <- final.store.states
        ensures exists n :: 0 <= n < k + 1 && other == Id(mac, times, n)
      {
        if other == id {
          assert other == Id(mac, times, k);
        } else {
          assert other in m.store.states;
        }
      }
    } else if NoCollision(times[..k]) {
      var n := TakenAtEnd(mac, times, k);
      assert Id(mac, times, n) in m.store.states;
    }
  }

  lemma NewAtEnd(mac: Mac, times: seq<Uint64>, k: nat)
    requires k < |times| && NoCollision(times[..k + 1])
    ensures forall n :: 0 <= n < k ==> Id(mac, times, n) != Id(mac, times, k)
  {
    hide AuthId;
    forall n | 0 <= n < k
      ensures Id(mac, times, n) != Id(mac, times, k)
    {
      assert times[..k + 1][n] == times[n] && times[..k + 1][k] == times[k];
      AuthIdsCollide(mac, n, times[n], k, times[k]);
    }
  }

  lemma TakenAtEnd(mac: Mac, times: seq<Uint64>, k: nat) returns (n: nat)
    requires k < |times| && NoCollision(times[..k]) && !NoCollision(times[..k + 1])
    ensures n < k && Id(mac, times, n) == Id(mac, times, k)
  {
    hide AuthId;
    var longer := times[..k + 1];
    var i, j :| 0 <= i < j < |longer| && longer[i] == longer[j] && i % TWO_TO_THE_64 == j % TWO_TO_THE_64;
    assert forall x :: 0 <= x < k ==> times[..k][x] == longer[x];
    assert j == k;
    n := i;
    AuthIdsCollide(mac, n, times[n], k, times[k]);
  }

  /** Sessions opened one after the other at readings that do not collide. */
  lemma {:induction false} OpensAll(mac: Mac, state: AuthState, times: seq<Uint64>, k: nat)
    returns (m: Machine, actions: seq<Action>)
    requires k <= |times| && NoCollision(times[..k]) && !state.issued && !state.redeemed
    ensures m == Run(mac, INIT, actions) && OpenedUpTo(mac, m, times, k)
    decreases k
  {
    hide Run, NoCollision, Id;
    if k == 0 {
      m, actions := INIT, [];
      RunNothing(mac, INIT);
    } else {
      PrefixNoCollision(times[..k - 1], times[..k]);
      var before, first := OpensAll(mac, state, times, k - 1);
      var opening := Opening(k - 1, CallCreate(state, times[k - 1]));
      OpensOne(mac, before, times, k - 1, state);
      RunAppend(mac, INIT, first, opening);
      m, actions := Run(mac, before, opening), first + opening;
    }
  }

  lemma {:induction false} FirstCollision(times: seq<Uint64>) returns (k: nat)
    requires !NoCollision(times)
    ensures k < |times| && NoCollision(times[..k]) && !NoCollision(times[..k + 1])
    decreases |times|
  {
    var init := times[..|times| - 1];
    if NoCollision(init) {
      k := |times| - 1;
      assert times[..k + 1] == times;
    } else {
      k := FirstCollision(init);
      assert init[..k] == times[..k] && init[..k + 1] == times[..k + 1];
    }
  }

  /** The condition is sharp: whenever clock readings collide, some run that hands out IDs at these readings loses the
      state lock. */
  lemma LockCanBeLost(mac: Mac, state: AuthState, times: seq<Uint64>)
    returns (m: Machine, actions: seq<Action>, u: Tid)
    requires !NoCollision(times) && !state.issued && !state.redeemed
    ensures m == Run(mac, INIT, actions) && m.times <= times && LockLost(m, u)
  {
    hide Run, NoCollision, LockLost;
    u := FirstCollision(times);
    var before, first := OpensAll(mac, state, times, u);
    var opening := Opening(u, CallCreate(state, times[u]));
    OpensOne(mac, before, times, u, state);
    RunAppend(mac, INIT, first, opening);
    m, actions := Run(mac, before, opening), first + opening;
  }

  /** A clock that stands still for 2^64 + 1 IDs is such a case. */
  lemma StandingClockCollides(t: Uint64)
    ensures !NoCollision(seq(TWO_TO_THE_64 + 1, _ => t))
  {
    var times := seq(TWO_TO_THE_64 + 1, _ => t);
    assert times[0] == times[TWO_TO_THE_64] && 0 % TWO_TO_THE_64 == TWO_TO_THE_64 % TWO_TO_THE_64;
  }
}
