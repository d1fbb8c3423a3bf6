/** The store under concurrent calls: every lock operation and every access under a lock is a step of its own, and
    steps of different calls interleave freely (cosigner/mocks/authstatestore.go). */
module StoreThreads {
  import opened Common
  import opened ByteStrings
  import opened AuthIds
  import opened AuthStore

  type Tid = nat

  /** A call with its private data: the parsed session state and clock reading, or the code drawn at random. */
  datatype Call = CallCreate(state: AuthState, timeNow: Uint64)
                | CallIssue(sid: Bytes, code: Bytes)
                | CallRedeem(authcode: Bytes)

  /** How far a call has come.  A number n stands for the n-th ID handed out. */
  datatype Local =
    | Start
    | CreateWaiting(n: nat) | CreateHolding(n: nat)
    | IssueHolding | IssueWaiting | IssueHoldingBoth | IssueUnlockingCode(result: Result)
    | RedeemReading | RedeemRead(found: Option<Bytes>) | RedeemWaiting(id: Bytes) | RedeemHolding(id: Bytes)
    | Unlocking(result: Result)
    | Done(result: Result)

  /** since is the length of the history when the call began. */
  datatype Thread = Thread(call: Call, local: Local, since: nat)

  /** A call as it takes effect. */
  datatype Event = Event(tid: Tid, op: Op, result: Result)

  /** times are the clock readings of the IDs handed out; history and point record where each call took effect. */
  datatype Machine = Machine(
    store: Store, times: seq<Uint64>, stateLock: Option<Tid>, codeWriter: Option<Tid>, codeReaders: set<Tid>,
    threads: map<Tid, Thread>, history: seq<Event>, point: map<Tid, nat>)

  const INIT := Machine(EMPTY_STORE, [], None, None, {}, map[], [], map[])

  // ---------------------------------------------------------------------------
  // Steps
  // ---------------------------------------------------------------------------

  function Id(mac: Mac, times: seq<Uint64>, n: nat): Bytes
    requires n < |times|
  {
    AuthId(mac, n, times[n])
  }

  function Go(m: Machine, tid: Tid, local: Local): Machine
    requires tid in m.threads
  {
    m.(threads := m.threads[tid := m.threads[tid].(local := local)])
  }

  /** The step at which a call takes effect. */
  function Take(m: Machine, tid: Tid, op: Op, outcome: (Store, Result), local: Local): Machine
    requires tid in m.threads
  {
    Go(m, tid, local).(store := outcome.0, history := m.history + [Event(tid, op, outcome.1)],
                       point := m.point[tid := |m.history|])
  }

  /** The next step of a call; None while it waits for a lock and after its end. */
  function Advance(mac: Mac, m: Machine, tid: Tid): Option<Machine>
    requires tid in m.threads
  {
    var t := m.threads[tid];
    match t.local
    case Start =>
      (match t.call
       case CallCreate(_, timeNow) => Some(Go(m, tid, CreateWaiting(|m.times|)).(times := m.times + [timeNow]))
       case CallIssue(_, _) =>
         if m.stateLock.Some? then None else Some(Go(m, tid, IssueHolding).(stateLock := Some(tid)))
       case CallRedeem(_) =>
         if m.codeWriter.Some? then None
         else Some(Go(m, tid, RedeemReading).(codeReaders := m.codeReaders + {tid})))
    case CreateWaiting(n) =>
      if m.stateLock.Some? then None else Some(Go(m, tid, CreateHolding(n)).(stateLock := Some(tid)))
    case CreateHolding(n) => CreateStep(mac, m, tid, n)
    case IssueHolding => IssueStep(m, tid)
    case IssueWaiting =>
      if m.codeWriter.Some? || m.codeReaders != {} then None
      else Some(Go(m, tid, IssueHoldingBoth).(codeWriter := Some(tid)))
    case IssueHoldingBoth => IssueBothStep(m, tid)
    case IssueUnlockingCode(result) => Some(Go(m, tid, Unlocking(result)).(codeWriter := None))
    case RedeemReading => RedeemReadStep(m, tid)
    case RedeemRead(found) =>
      Some(Go(m, tid, if found.None? then Done(Refused(InvalidCode)) else RedeemWaiting(found.value))
           .(codeReaders := m.codeReaders - {tid}))
    case RedeemWaiting(id) =>
      if m.stateLock.Some? then None else Some(Go(m, tid, RedeemHolding(id)).(stateLock := Some(tid)))
    case RedeemHolding(id) => RedeemStep(m, tid, id)
    case Unlocking(result) => Some(Go(m, tid, Done(result)).(stateLock := None))
    case Done(_) => None
  }

  /** The early return on a duplicate ID does not release the lock. */
  function CreateStep(mac: Mac, m: Machine, tid: Tid, n: nat): Option<Machine>
    requires tid in m.threads
  {
    var call := m.threads[tid].call;
    if !call.CallCreate? || n >= |m.times| then None
    else
      var id := Id(mac, m.times, n);
      if id in m.store.states then
        Some(Take(m, tid, OpCreate(id, call.state), (m.store, Refused(DuplicateId)), Done(Refused(DuplicateId))))
      else
        var store := m.store.(states := m.store.states[id := call.state]);
        Some(Take(m, tid, OpCreate(id, call.state), (store, Created(id)), Unlocking(Created(id))))
  }

  function IssueStep(m: Machine, tid: Tid): Option<Machine>
    requires tid in m.threads
  {
    var call := m.threads[tid].call;
    if !call.CallIssue? then None
    else
      var op := OpIssue(call.sid, call.code);
      if call.sid !in m.store.states then
        Some(Take(m, tid, op, (m.store, Refused(NoSuchId)), Unlocking(Refused(NoSuchId))))
      else if m.store.states[call.sid].issued then
        Some(Take(m, tid, op, (m.store, Refused(AlreadyIssued)), Unlocking(Refused(AlreadyIssued))))
      else Some(Go(m, tid, IssueWaiting))
  }

  function IssueBothStep(m: Machine, tid: Tid): Option<Machine>
    requires tid in m.threads
  {
    var call := m.threads[tid].call;
    if !call.CallIssue? || call.sid !in m.store.states then None
    else
      var op := OpIssue(call.sid, call.code);
      if call.code in m.store.codes then
        Some(Take(m, tid, op, (m.store, Refused(CodeCollision)), IssueUnlockingCode(Refused(CodeCollision))))
      else
        var states := m.store.states[call.sid := m.store.states[call.sid].(issued := true)];
        var codes := m.store.codes[call.code := call.sid];
        Some(Take(m, tid, op, (Store(states, codes), Issued(call.code)), IssueUnlockingCode(Issued(call.code))))
  }

  function RedeemReadStep(m: Machine, tid: Tid): Option<Machine>
    requires tid in m.threads
  {
    var call := m.threads[tid].call;
    if !call.CallRedeem? then None
    else if call.authcode in m.store.codes then Some(Go(m, tid, RedeemRead(Some(m.store.codes[call.authcode]))))
    else Some(Take(m, tid, OpRedeem(call.authcode), (m.store, Refused(InvalidCode)), RedeemRead(None)))
  }

  /** Under the state lock only the ID read earlier is used, not the code. */
  function RedeemStep(m: Machine, tid: Tid, id: Bytes): Option<Machine>
    requires tid in m.threads
  {
    var call := m.threads[tid].call;
    if !call.CallRedeem? then None
    else
      var outcome := RedeemSession(m.store, id);
      Some(Take(m, tid, OpRedeem(call.authcode), outcome, Unlocking(outcome.1)))
  }

  function Spawned(m: Machine, tid: Tid, call: Call): Machine {
    m.(threads := m.threads[tid := Thread(call, Start, |m.history|)])
  }

  datatype Action = Spawn(tid: Tid, call: Call) | Advancing(tid: Tid)

  /** An action that is not possible changes nothing. */
  function Step(mac: Mac, m: Machine, action: Action): Machine {
    match action
    case Spawn(tid, call) =>
      if tid in m.threads || !Begins(call) then m
      else Spawned(m, tid, call)
    case Advancing(tid) =>
      if tid !in m.threads then m
      else
        var next := Advance(mac, m, tid);
        if next.Some? then next.value else m
  }

  /** A new session has no code yet. */
  predicate Begins(call: Call) {
    call.CallCreate? ==> !call.state.issued && !call.state.redeemed
  }

  function Run(mac: Mac, m: Machine, actions: seq<Action>): Machine
    decreases |actions|
  {
    if actions == [] then m else Run(mac, Step(mac, m, actions[0]), actions[1..])
  }

  // ---------------------------------------------------------------------------
  // The sequential store
  // ---------------------------------------------------------------------------

  function Replay(history: seq<Event>): Store {
    if history == [] then EMPTY_STORE
    else Apply(Replay(history[..|history| - 1]), history[|history| - 1].op).0
  }

  /** Every event has the result the sequential store gives at its place. */
  predicate Legal(history: seq<Event>) {
    forall k :: 0 <= k < |history| ==> history[k].result == Apply(Replay(history[..k]), history[k].op).1
  }

  // ---------------------------------------------------------------------------
  // The invariant
  // ---------------------------------------------------------------------------

  /** A call that ended on a duplicate ID never gave the lock back. */
  predicate HoldsState(local: Local) {
    local == Done(Refused(DuplicateId))
    || local.CreateHolding? || local.IssueHolding? || local.IssueWaiting? || local.IssueHoldingBoth?
    || local.IssueUnlockingCode? || local.RedeemHolding? || local.Unlocking?
  }

  predicate WritesCodes(local: Local) {
    local.IssueHoldingBoth? || local.IssueUnlockingCode?
  }

  predicate ReadsCodes(local: Local) {
    local.RedeemReading? || local.RedeemRead?
  }

  /** The call has taken effect. */
  predicate Decided(local: Local) {
    local.IssueUnlockingCode? || local.Unlocking? || local.Done? || local == RedeemRead(None)
  }

  function ResultOf(local: Local): Result
    requires Decided(local)
  {
    if local.RedeemRead? then Refused(InvalidCode) else local.result
  }

  predicate Performs(op: Op, call: Call) {
    match call
    case CallCreate(state, _) => op.OpCreate? && op.state == state
    case CallIssue(id, code) => op == OpIssue(id, code)
    case CallRedeem(code) => op == OpRedeem(code)
  }

  /** Locks are held exactly by the calls inside them. */
  predicate LocksOk(m: Machine) {
    && (forall u <- m.threads :: m.stateLock == Some(u) <==> HoldsState(m.threads[u].local))
    && (forall u <- m.threads :: m.codeWriter == Some(u) <==> WritesCodes(m.threads[u].local))
    && (forall u <- m.threads :: u in m.codeReaders <==> ReadsCodes(m.threads[u].local))
    && (m.stateLock.Some? ==> m.stateLock.value in m.threads)
    && (m.codeWriter.Some? ==> m.codeWriter.value in m.threads && m.codeReaders == {})
    && m.codeReaders <= m.threads.Keys
  }

  /** What a call remembers is still true of the store. */
  predicate LocalOk(m: Machine, t: Thread) {
    Begins(t.call) &&
    match t.local
    case Start => true
    case CreateWaiting(n) => t.call.CallCreate? && n < |m.times|
    case CreateHolding(n) => t.call.CallCreate? && n < |m.times|
    case IssueHolding => t.call.CallIssue?
    case IssueWaiting => t.call.CallIssue? && t.call.sid in m.store.states && !m.store.states[t.call.sid].issued
    case IssueHoldingBoth => t.call.CallIssue? && t.call.sid in m.store.states && !m.store.states[t.call.sid].issued
    case RedeemReading => t.call.CallRedeem?
    case RedeemRead(found) => t.call.CallRedeem? && (found.Some? ==> MapsTo(m.store, t.call.authcode, found.value))
    case RedeemWaiting(id) => t.call.CallRedeem? && MapsTo(m.store, t.call.authcode, id)
    case RedeemHolding(id) => t.call.CallRedeem? && MapsTo(m.store, t.call.authcode, id)
    case IssueUnlockingCode(result) => result != Refused(DuplicateId)
    case Unlocking(result) => result != Refused(DuplicateId)
    case Done(_) => true
  }

  predicate MapsTo(store: Store, code: Bytes, id: Bytes) {
    code in store.codes && store.codes[code] == id
  }

  predicate LocalsOk(m: Machine) {
    forall u <- m.threads :: LocalOk(m, m.threads[u])
  }

  /** Stored IDs were handed out. */
  predicate IdsStored(mac: Mac, m: Machine) {
    forall id <- m.store.states :: exists n :: 0 <= n < |m.times| && id == Id(mac, m.times, n)
  }

  /** A call's event, once it has one. */
  predicate EventOk(m: Machine, u: Tid)
    requires u in m.threads
  {
    var t := m.threads[u];
    && (Decided(t.local) <==> u in m.point)
    && t.since <= |m.history|
    && (u in m.point ==>
          && t.since <= m.point[u] < |m.history|
          && m.history[m.point[u]].tid == u
          && Performs(m.history[m.point[u]].op, t.call)
          && m.history[m.point[u]].result == ResultOf(t.local))
  }

  /** The history is a sequential run with one event for every call that has taken effect. */
  predicate HistoryOk(m: Machine) {
    && m.store == Replay(m.history)
    && Legal(m.history)
    && m.point.Keys <= m.threads.Keys
    && (forall u <- m.threads :: EventOk(m, u))
    && (forall k :: 0 <= k < |m.history| ==>
          m.history[k].tid in m.threads && m.history[k].tid in m.point && m.point[m.history[k].tid] == k)
  }

  predicate Inv(mac: Mac, m: Machine) {
    LocksOk(m) && LocalsOk(m) && IdsStored(mac, m) && HistoryOk(m) && Coherent(m.store)
  }

  /** The ID a call holds but has not stored yet. */
  function Pending(local: Local): Option<nat> {
    if local.CreateWaiting? || local.CreateHolding? then Some(local.n) else None
  }

  /** No two IDs are equal, no two calls hold the same one, and what a call holds is not stored. */
  predicate IdsFree(mac: Mac, m: Machine) {
    && NoCollision(m.times)
    && (forall u <- m.threads :: Pending(m.threads[u].local).Some? ==>
          m.threads[u].local.n < |m.times| && Id(mac, m.times, m.threads[u].local.n) !in m.store.states)
    && (forall u <- m.threads, w <- m.threads ::
          u != w && Pending(m.threads[u].local).Some? ==> Pending(m.threads[u].local) != Pending(m.threads[w].local))
  }

  // ---------------------------------------------------------------------------
  // Every step keeps the invariant
  // ---------------------------------------------------------------------------

  /** What a call does when it takes effect. */
  function OpAt(mac: Mac, m: Machine, t: Thread): Op {
    match t.call
    case CallCreate(state, _) =>
      OpCreate(if t.local.CreateHolding? && t.local.n < |m.times| then Id(mac, m.times, t.local.n) else [], state)
    case CallIssue(id, code) => OpIssue(id, code)
    case CallRedeem(code) => OpRedeem(code)
  }

  /** A step either takes effect exactly as the sequential store would, or leaves store and history alone. */
  predicate Simulates(mac: Mac, m: Machine, after: Machine, tid: Tid)
    requires tid in m.threads
  {
    var t := m.threads[tid];
    && tid in after.threads
    && after.threads == m.threads[tid := t.(local := after.threads[tid].local)]
    && var local := after.threads[tid].local;
       if Decided(local) && !Decided(t.local) then
         var op := OpAt(mac, m, t);
         && after.store == Apply(m.store, op).0
         && after.history == m.history + [Event(tid, op, Apply(m.store, op).1)]
         && after.point == m.point[tid := |m.history|]
         && ResultOf(local) == Apply(m.store, op).1
       else
         && after.store == m.store && after.history == m.history && after.point == m.point
         && (Decided(local) <==> Decided(t.local))
         && (Decided(local) ==> ResultOf(local) == ResultOf(t.local))
  }

  /** A lock after a call moved: taken by entering its region, given back by leaving it. */
  function LockAfter(lock: Option<Tid>, tid: Tid, before: bool, after: bool): Option<Tid> {
    if after then Some(tid) else if before then None else lock
  }

  predicate MovesLocks(m: Machine, after: Machine, tid: Tid)
    requires tid in m.threads && tid in after.threads
  {
    var from, to := m.threads[tid].local, after.threads[tid].local;
    && after.stateLock == LockAfter(m.stateLock, tid, HoldsState(from), HoldsState(to))
    && after.codeWriter == LockAfter(m.codeWriter, tid, WritesCodes(from), WritesCodes(to))
    && after.codeReaders == (if ReadsCodes(to) then m.codeReaders + {tid} else m.codeReaders - {tid})
    && (HoldsState(to) && !HoldsState(from) ==> m.stateLock.None?)
    && (WritesCodes(to) && !WritesCodes(from) ==> m.codeWriter.None? && m.codeReaders == {})
    && (ReadsCodes(to) && !ReadsCodes(from) ==> m.codeWriter.None?)
  }

  predicate Moves(mac: Mac, m: Machine, after: Machine, tid: Tid)
    requires tid in m.threads
  {
    Simulates(mac, m, after, tid) && MovesLocks(m, after, tid)
  }

  lemma TakeMoves(mac: Mac, m: Machine, tid: Tid, local: Local)
    requires tid in m.threads && LocksOk(m)
    requires var from := m.threads[tid].local;
             && !Decided(from) && Decided(local)
             && (HoldsState(from) <==> HoldsState(local))
             && (WritesCodes(from) <==> WritesCodes(local))
             && (ReadsCodes(from) <==> ReadsCodes(local))
    requires ResultOf(local) == Apply(m.store, OpAt(mac, m, m.threads[tid])).1
    ensures var op := OpAt(mac, m, m.threads[tid]);
            Moves(mac, m, Take(m, tid, op, Apply(m.store, op), local), tid)
  {
    hide Apply, OpAt, HoldsState, WritesCodes, ReadsCodes;
  }

  /** A step that only moves a call on, with the locks it takes or gives back. */
  lemma GoMoves(mac: Mac, m: Machine, after: Machine, tid: Tid, local: Local)
    requires tid in m.threads && LocksOk(m)
    requires after == Go(m, tid, local).(stateLock := after.stateLock, codeWriter := after.codeWriter,
                                         codeReaders := after.codeReaders, times := after.times)
    requires var from := m.threads[tid].local;
             && (Decided(from) <==> Decided(local)) && (Decided(local) ==> ResultOf(local) == ResultOf(from))
    requires MovesLocks(m, after, tid)
    ensures Moves(mac, m, after, tid)
  {
    hide Apply, OpAt, MovesLocks;
  }

  lemma CreateMoves(mac: Mac, m: Machine, tid: Tid, n: nat)
    requires tid in m.threads && LocksOk(m) && LocalOk(m, m.threads[tid])
    requires m.threads[tid].local == CreateHolding(n)
    requires CreateStep(mac, m, tid, n).Some?
    ensures Moves(mac, m, CreateStep(mac, m, tid, n).value, tid)
  {
    hide Id, LocksOk, Moves;
    var id := Id(mac, m.times, n);
    TakeMoves(mac, m, tid, if id in m.store.states then Done(Refused(DuplicateId)) else Unlocking(Created(id)));
  }

  lemma IssueMoves(mac: Mac, m: Machine, tid: Tid)
    requires tid in m.threads && LocksOk(m) && LocalOk(m, m.threads[tid])
    requires m.threads[tid].local == IssueHolding
    requires IssueStep(m, tid).Some?
    ensures Moves(mac, m, IssueStep(m, tid).value, tid)
  {
    hide Id, LocksOk, Moves;
    var call := m.threads[tid].call;
    if call.sid !in m.store.states {
      TakeMoves(mac, m, tid, Unlocking(Refused(NoSuchId)));
    } else if m.store.states[call.sid].issued {
      TakeMoves(mac, m, tid, Unlocking(Refused(AlreadyIssued)));
    } else {
      KeptLocks(m, tid, IssueWaiting);
      GoMoves(mac, m, Go(m, tid, IssueWaiting), tid, IssueWaiting);
    }
  }

  lemma IssueBothMoves(mac: Mac, m: Machine, tid: Tid)
    requires tid in m.threads && LocksOk(m) && LocalOk(m, m.threads[tid])
    requires m.threads[tid].local == IssueHoldingBoth
    requires IssueBothStep(m, tid).Some?
    ensures Moves(mac, m, IssueBothStep(m, tid).value, tid)
  {
    hide Id, LocksOk, Moves;
    var call := m.threads[tid].call;
    var result := if call.code in m.store.codes then Refused(CodeCollision) else Issued(call.code);
    TakeMoves(mac, m, tid, IssueUnlockingCode(result));
  }

  lemma RedeemReadMoves(mac: Mac, m: Machine, tid: Tid)
    requires tid in m.threads && LocksOk(m) && LocalOk(m, m.threads[tid])
    requires m.threads[tid].local == RedeemReading
    requires RedeemReadStep(m, tid).Some?
    ensures Moves(mac, m, RedeemReadStep(m, tid).value, tid)
  {
    hide Id, LocksOk, Moves, RedeemSession;
    var call := m.threads[tid].call;
    if call.authcode in m.store.codes {
      var local := RedeemRead(Some(m.store.codes[call.authcode]));
      KeptLocks(m, tid, local);
      GoMoves(mac, m, Go(m, tid, local), tid, local);
    } else {
      TakeMoves(mac, m, tid, RedeemRead(None));
    }
  }

  lemma RedeemMoves(mac: Mac, m: Machine, tid: Tid, id: Bytes)
    requires tid in m.threads && LocksOk(m) && LocalOk(m, m.threads[tid])
    requires m.threads[tid].local == RedeemHolding(id)
    requires RedeemStep(m, tid, id).Some?
    ensures Moves(mac, m, RedeemStep(m, tid, id).value, tid)
  {
    hide Id, LocksOk, Moves, RedeemSession;
    TakeMoves(mac, m, tid, Unlocking(RedeemSession(m.store, id).1));
  }

  /** A step inside the same regions moves no lock. */
  lemma KeptLocks(m: Machine, tid: Tid, local: Local)
    requires tid in m.threads && LocksOk(m)
    requires var from := m.threads[tid].local;
             && (HoldsState(from) <==> HoldsState(local))
             && (WritesCodes(from) <==> WritesCodes(local))
             && (ReadsCodes(from) <==> ReadsCodes(local))
    ensures MovesLocks(m, Go(m, tid, local), tid)
  {
    hide HoldsState, WritesCodes, ReadsCodes;
  }

  lemma AdvanceMoves(mac: Mac, m: Machine, tid: Tid)
    requires tid in m.threads && LocksOk(m) && LocalOk(m, m.threads[tid]) && Advance(mac, m, tid).Some?
    ensures Moves(mac, m, Advance(mac, m, tid).value, tid)
  {
    hide LocalOk, Moves, CreateStep, IssueStep, IssueBothStep, RedeemReadStep, RedeemStep;
    var after := Advance(mac, m, tid).value;
    match m.threads[tid].local
    case CreateHolding(n) => CreateMoves(mac, m, tid, n);
    case IssueHolding => IssueMoves(mac, m, tid);
    case IssueHoldingBoth => IssueBothMoves(mac, m, tid);
    case RedeemReading => RedeemReadMoves(mac, m, tid);
    case RedeemHolding(id) => RedeemMoves(mac, m, tid, id);
    case _ =>
      LockStepMoves(mac, m, tid);
  }

  /** The steps that only take or release a lock, or hand out an ID. */
  predicate LockStep(local: Local) {
    !local.CreateHolding? && !local.IssueHolding? && !local.IssueHoldingBoth? && !local.RedeemReading?
    && !local.RedeemHolding?
  }

  lemma LockStepMoves(mac: Mac, m: Machine, tid: Tid)
    requires tid in m.threads && LocksOk(m) && LocalOk(m, m.threads[tid]) && LockStep(m.threads[tid].local)
    requires Advance(mac, m, tid).Some?
    ensures Moves(mac, m, Advance(mac, m, tid).value, tid)
  {
    hide Moves, CreateStep, IssueStep, IssueBothStep, RedeemReadStep, RedeemStep;
    var after := Advance(mac, m, tid).value;
    LockStepLocks(mac, m, tid);
    GoMoves(mac, m, after, tid, after.threads[tid].local);
  }

  lemma LockStepLocks(mac: Mac, m: Machine, tid: Tid)
    requires tid in m.threads && LocksOk(m) && LocalOk(m, m.threads[tid]) && LockStep(m.threads[tid].local)
    requires Advance(mac, m, tid).Some?
    ensures tid in Advance(mac, m, tid).value.threads && MovesLocks(m, Advance(mac, m, tid).value, tid)
  {
    hide CreateStep, IssueStep, IssueBothStep, RedeemReadStep, RedeemStep;
  }

  lemma ReplaySnoc(history: seq<Event>, e: Event)
    ensures Replay(history + [e]) == Apply(Replay(history), e.op).0
  {
    hide Apply;
    assert (history + [e])[..|history|] == history;
  }

  lemma LegalSnoc(history: seq<Event>, e: Event)
    requires Legal(history) && e.result == Apply(Replay(history), e.op).1
    ensures Legal(history + [e])
  {
    hide Apply, Replay;
    var longer := history + [e];
    forall k | 0 <= k < |longer|
      ensures longer[k].result == Apply(Replay(longer[..k]), longer[k].op).1
    {
      if k < |history| {
        assert longer[..k] == history[..k];
      } else {
        assert longer[..k] == history;
      }
    }
  }

  lemma EventKept(m: Machine, after: Machine, u: Tid)
    requires u in m.threads && EventOk(m, u)
    requires u in after.threads && after.threads[u] == m.threads[u]
    requires m.history <= after.history
    requires u in m.point <==> u in after.point
    requires u in m.point ==> after.point[u] == m.point[u]
    ensures EventOk(after, u)
  {}

  lemma OpPerforms(mac: Mac, m: Machine, t: Thread)
    ensures Performs(OpAt(mac, m, t), t.call)
  {
    hide Id;
  }

  lemma HistoryKept(mac: Mac, m: Machine, after: Machine, tid: Tid)
    requires tid in m.threads && HistoryOk(m) && Simulates(mac, m, after, tid)
    ensures HistoryOk(after)
  {
    hide Apply, Replay, Legal, OpAt, Performs, Decided, ResultOf;
    var t := m.threads[tid];
    assert EventOk(m, tid);
    if Decided(after.threads[tid].local) && !Decided(t.local) {
      OpPerforms(mac, m, t);
      var e := Event(tid, OpAt(mac, m, t), Apply(m.store, OpAt(mac, m, t)).1);
      ReplaySnoc(m.history, e);
      LegalSnoc(m.history, e);
    }
    forall u <- after.threads
      ensures EventOk(after, u)
    {
      if u != tid {
        EventKept(m, after, u);
      }
    }
  }

  lemma CoherentKept(mac: Mac, m: Machine, after: Machine, tid: Tid)
    requires tid in m.threads && Begins(m.threads[tid].call) && Coherent(m.store) && Simulates(mac, m, after, tid)
    ensures Coherent(after.store)
  {
    hide Apply, Coherent;
    if after.store != m.store {
      ApplyKeeps(m.store, OpAt(mac, m, m.threads[tid]));
    }
  }

  lemma LocksKept(mac: Mac, m: Machine, after: Machine, tid: Tid)
    requires LocksOk(m) && tid in m.threads && Moves(mac, m, after, tid)
    ensures LocksOk(after)
  {
    hide HoldsState, WritesCodes, ReadsCodes, Apply, OpAt;
    NotBoth(m.threads[tid].local);
    NotBoth(after.threads[tid].local);
  }

  lemma NotBoth(local: Local)
    ensures !(ReadsCodes(local) && WritesCodes(local))
  {}

  // How other calls see a step.

  lemma LocalKept(m: Machine, after: Machine, t: Thread)
    requires LocalOk(m, t) && after.store == m.store && m.times <= after.times
    ensures LocalOk(after, t)
  {}

  lemma SameId(mac: Mac, times: seq<Uint64>, longer: seq<Uint64>, n: nat)
    requires n < |times| && times <= longer
    ensures Id(mac, longer, n) == Id(mac, times, n)
  {}

  /** A call outside the state lock depends on the codes only. */
  lemma LocalOutside(m: Machine, after: Machine, t: Thread)
    requires LocalOk(m, t) && !HoldsState(t.local) && after.times == m.times
    requires forall code <- m.store.codes :: MapsTo(after.store, code, m.store.codes[code])
    ensures LocalOk(after, t)
  {}

  lemma IdsDistinct(mac: Mac, times: seq<Uint64>, n: nat, k: nat)
    requires n < |times| && k < |times| && n != k && NoCollision(times)
    ensures Id(mac, times, n) != Id(mac, times, k)
  {
    hide AuthId;
    AuthIdsCollide(mac, n, times[n], k, times[k]);
  }

  lemma OthersOutside(m: Machine, tid: Tid, u: Tid)
    requires LocksOk(m) && tid in m.threads && u in m.threads && u != tid && HoldsState(m.threads[tid].local)
    ensures !HoldsState(m.threads[u].local)
  {}

  /** Only a holder of the state lock changes the store, and how. */
  lemma StoreStep(mac: Mac, m: Machine, tid: Tid)
    requires tid in m.threads && Advance(mac, m, tid).Some? && Advance(mac, m, tid).value.store != m.store
    ensures var after, local := Advance(mac, m, tid).value, m.threads[tid].local;
            && HoldsState(local) && after.times == m.times
            && (forall code <- m.store.codes :: MapsTo(after.store, code, m.store.codes[code]))
            && if local.CreateHolding? then
                 && local.n < |m.times|
                 && after.store.states.Keys == m.store.states.Keys + {Id(mac, m.times, local.n)}
               else after.store.states.Keys == m.store.states.Keys
  {
    hide Id;
  }

  lemma OtherLocal(mac: Mac, m: Machine, tid: Tid, u: Tid)
    requires LocksOk(m) && LocalsOk(m) && tid in m.threads && u in m.threads && u != tid
    requires Advance(mac, m, tid).Some?
    ensures LocalOk(Advance(mac, m, tid).value, m.threads[u])
  {
    hide Id, HoldsState, Advance, LocalOk, MapsTo;
    var after, t := Advance(mac, m, tid).value, m.threads[u];
    TimesGrow(mac, m, tid);
    if after.store == m.store {
      LocalKept(m, after, t);
    } else {
      StoreStep(mac, m, tid);
      OthersOutside(m, tid, u);
      LocalOutside(m, after, t);
    }
  }

  lemma OwnLocalAtLock(mac: Mac, m: Machine, tid: Tid)
    requires tid in m.threads && LocalOk(m, m.threads[tid]) && LockStep(m.threads[tid].local)
    requires Advance(mac, m, tid).Some?
    ensures var after := Advance(mac, m, tid).value; tid in after.threads && LocalOk(after, after.threads[tid])
  {
    hide CreateStep, IssueStep, IssueBothStep, RedeemReadStep, RedeemStep;
  }

  lemma OwnLocalInside(mac: Mac, m: Machine, tid: Tid)
    requires tid in m.threads && LocalOk(m, m.threads[tid]) && !LockStep(m.threads[tid].local)
    requires Advance(mac, m, tid).Some?
    ensures var after := Advance(mac, m, tid).value; tid in after.threads && LocalOk(after, after.threads[tid])
  {
    hide Id, RedeemSession;
    if m.threads[tid].local.RedeemHolding? {
      RedeemResult(m.store, m.threads[tid].local.id);
    }
  }

  lemma RedeemResult(store: Store, id: Bytes)
    ensures RedeemSession(store, id).1 != Refused(DuplicateId)
  {}

  lemma OwnLocal(mac: Mac, m: Machine, tid: Tid)
    requires LocalsOk(m) && tid in m.threads && Advance(mac, m, tid).Some?
    ensures var after := Advance(mac, m, tid).value; tid in after.threads && LocalOk(after, after.threads[tid])
  {
    hide LocalOk, Advance;
    assert LocalOk(m, m.threads[tid]);
    if LockStep(m.threads[tid].local) {
      OwnLocalAtLock(mac, m, tid);
    } else {
      OwnLocalInside(mac, m, tid);
    }
  }

  lemma LocalsKept(mac: Mac, m: Machine, tid: Tid)
    requires LocksOk(m) && LocalsOk(m) && tid in m.threads && Advance(mac, m, tid).Some?
    requires Moves(mac, m, Advance(mac, m, tid).value, tid)
    ensures LocalsOk(Advance(mac, m, tid).value)
  {
    hide Advance, LocalOk, LocksOk, MovesLocks, Apply, OpAt;
    var after := Advance(mac, m, tid).value;
    forall u <- after.threads
      ensures LocalOk(after, after.threads[u])
    {
      if u == tid {
        OwnLocal(mac, m, tid);
      } else {
        OtherLocal(mac, m, tid, u);
      }
    }
  }

  lemma TimesGrow(mac: Mac, m: Machine, tid: Tid)
    requires tid in m.threads && Advance(mac, m, tid).Some?
    ensures var after := Advance(mac, m, tid).value;
            after.times == if m.threads[tid].local.Start? && m.threads[tid].call.CallCreate?
                           then m.times + [m.threads[tid].call.timeNow] else m.times
  {
    hide Id, RedeemSession;
  }

  lemma StoredIdsKept(mac: Mac, m: Machine, tid: Tid)
    requires IdsStored(mac, m) && tid in m.threads && Advance(mac, m, tid).Some?
    ensures IdsStored(mac, Advance(mac, m, tid).value)
  {
    hide Advance, Id;
    var after := Advance(mac, m, tid).value;
    TimesGrow(mac, m, tid);
    if after.store != m.store {
      StoreStep(mac, m, tid);
    }
    forall id <- after.store.states
      ensures exists n :: 0 <= n < |after.times| && id == Id(mac, after.times, n)
    {
      assert id in after.store.states.Keys;
      if id in m.store.states {
        var n :| 0 <= n < |m.times| && id == Id(mac, m.times, n);
        SameId(mac, m.times, after.times, n);
        assert id == Id(mac, after.times, n);
      } else {
        assert id == Id(mac, after.times, m.threads[tid].local.n);
      }
    }
  }

  lemma SpawnKeepsLocks(m: Machine, tid: Tid, call: Call)
    requires LocksOk(m) && tid !in m.threads
    ensures LocksOk(Spawned(m, tid, call))
  {}

  lemma SpawnKeepsLocals(m: Machine, tid: Tid, call: Call)
    requires LocalsOk(m) && tid !in m.threads && Begins(call)
    ensures LocalsOk(Spawned(m, tid, call))
  {
    var after := Spawned(m, tid, call);
    assert LocalOk(after, after.threads[tid]);
    forall u <- m.threads
      ensures LocalOk(after, m.threads[u])
    {
      LocalKept(m, after, m.threads[u]);
    }
  }

  lemma SpawnKeepsHistory(m: Machine, tid: Tid, call: Call)
    requires HistoryOk(m) && tid !in m.threads
    ensures HistoryOk(Spawned(m, tid, call))
  {
    hide Replay, Legal;
    var after := Spawned(m, tid, call);
    assert tid !in m.point.Keys;
    forall u <- m.threads
      ensures EventOk(after, u)
    {
      EventKept(m, after, u);
    }
  }

  lemma SpawnKeeps(mac: Mac, m: Machine, tid: Tid, call: Call)
    requires Inv(mac, m) && tid !in m.threads && Begins(call)
    ensures Inv(mac, Spawned(m, tid, call))
  {
    hide LocksOk, LocalsOk, Id, HistoryOk, Coherent;
    SpawnKeepsLocks(m, tid, call);
    SpawnKeepsLocals(m, tid, call);
    SpawnKeepsHistory(m, tid, call);
  }

  lemma AdvanceKeeps(mac: Mac, m: Machine, tid: Tid)
    requires Inv(mac, m) && tid in m.threads && Advance(mac, m, tid).Some?
    ensures Inv(mac, Advance(mac, m, tid).value)
  {
    hide Advance, Moves, LocksOk, IdsStored, HistoryOk, Coherent, LocalOk;
    var after := Advance(mac, m, tid).value;
    assert LocalOk(m, m.threads[tid]);
    AdvanceMoves(mac, m, tid);
    LocksKept(mac, m, after, tid);
    LocalsKept(mac, m, tid);
    StoredIdsKept(mac, m, tid);
    assert Simulates(mac, m, after, tid) && Begins(m.threads[tid].call) by {
      MovesSimulates(mac, m, after, tid);
    }
    HistoryKept(mac, m, after, tid);
    CoherentKept(mac, m, after, tid);
  }

  lemma MovesSimulates(mac: Mac, m: Machine, after: Machine, tid: Tid)
    requires tid in m.threads && Moves(mac, m, after, tid) && LocalOk(m, m.threads[tid])
    ensures Simulates(mac, m, after, tid) && Begins(m.threads[tid].call)
  {
    hide Simulates, MovesLocks;
  }

  lemma StepKeeps(mac: Mac, m: Machine, action: Action)
    requires Inv(mac, m)
    ensures Inv(mac, Step(mac, m, action))
  {
    hide Inv, Advance;
    match action
    case Spawn(tid, call) =>
      if tid !in m.threads && Begins(call) {
        SpawnKeeps(mac, m, tid, call);
      }
    case Advancing(tid) =>
      if tid in m.threads && Advance(mac, m, tid).Some? {
        AdvanceKeeps(mac, m, tid);
      }
  }

  lemma StepTimes(mac: Mac, m: Machine, action: Action)
    ensures m.times <= Step(mac, m, action).times
  {
    hide Advance;
    if action.Advancing? && action.tid in m.threads && Advance(mac, m, action.tid).Some? {
      TimesGrow(mac, m, action.tid);
    }
  }

  lemma {:induction false} RunTimes(mac: Mac, m: Machine, actions: seq<Action>)
    ensures m.times <= Run(mac, m, actions).times
    decreases |actions|
  {
    hide Step;
    if actions != [] {
      StepTimes(mac, m, actions[0]);
      RunTimes(mac, Step(mac, m, actions[0]), actions[1..]);
    }
  }

  /** The invariant over every interleaving. */
  lemma {:induction false} RunKeeps(mac: Mac, m: Machine, actions: seq<Action>)
    requires Inv(mac, m)
    ensures Inv(mac, Run(mac, m, actions))
    decreases |actions|
  {
    hide Step, Inv;
    if actions != [] {
      StepKeeps(mac, m, actions[0]);
      RunKeeps(mac, Step(mac, m, actions[0]), actions[1..]);
    }
  }

  lemma InitInv(mac: Mac)
    ensures Inv(mac, INIT)
  {}

  // ---------------------------------------------------------------------------
  // IDs stay free as long as they do not collide
  // ---------------------------------------------------------------------------

  /** Outside its lock steps a call never gains a pending ID. */
  lemma PendingInside(mac: Mac, m: Machine, tid: Tid)
    requires tid in m.threads && Advance(mac, m, tid).Some? && !LockStep(m.threads[tid].local)
    ensures var after := Advance(mac, m, tid).value;
            tid in after.threads && Pending(after.threads[tid].local).None?
  {
    hide Id, RedeemSession;
  }

  lemma NewIdUnused(mac: Mac, m: Machine, timeNow: Uint64)
    requires IdsStored(mac, m) && NoCollision(m.times + [timeNow])
    ensures Id(mac, m.times + [timeNow], |m.times|) !in m.store.states
  {
    hide Id;
    var times := m.times + [timeNow];
    var id := Id(mac, times, |m.times|);
    if id in m.store.states {
      var n :| 0 <= n < |m.times| && id == Id(mac, m.times, n);
      SameId(mac, m.times, times, n);
      IdsDistinct(mac, times, n, |m.times|);
    }
  }

  /** An ID other than the one a step stores stays unused. */
  lemma UnusedKept(mac: Mac, m: Machine, tid: Tid, n: nat)
    requires tid in m.threads && Advance(mac, m, tid).Some? && NoCollision(m.times)
    requires n < |m.times| && Id(mac, m.times, n) !in m.store.states && m.threads[tid].local != CreateHolding(n)
    ensures var after := Advance(mac, m, tid).value;
            n < |after.times| && Id(mac, after.times, n) !in after.store.states
  {
    hide Advance, Id;
    var after := Advance(mac, m, tid).value;
    TimesGrow(mac, m, tid);
    SameId(mac, m.times, after.times, n);
    assert Id(mac, m.times, n) !in m.store.states.Keys;
    if after.store != m.store {
      StoreStep(mac, m, tid);
      if m.threads[tid].local.CreateHolding? {
        IdsDistinct(mac, m.times, n, m.threads[tid].local.n);
      }
      assert Id(mac, m.times, n) !in after.store.states.Keys;
    }
  }

  /** The ID of the call that steps: kept, new, or no longer pending. */
  lemma OwnPending(mac: Mac, m: Machine, tid: Tid)
    requires IdsStored(mac, m) && IdsFree(mac, m) && tid in m.threads && Advance(mac, m, tid).Some?
    requires NoCollision(Advance(mac, m, tid).value.times)
    ensures var after := Advance(mac, m, tid).value;
            tid in after.threads && (Pending(after.threads[tid].local).Some? ==>
              var n := after.threads[tid].local.n;
              && n < |after.times| && Id(mac, after.times, n) !in after.store.states
              && (n == |m.times| || Some(n) == Pending(m.threads[tid].local)))
  {
    hide CreateStep, IssueStep, IssueBothStep, RedeemReadStep, RedeemStep, Id, NoCollision;
    var t := m.threads[tid];
    if !LockStep(t.local) {
      PendingInside(mac, m, tid);
    } else if t.local.Start? && t.call.CallCreate? {
      NewIdUnused(mac, m, t.call.timeNow);
    }
  }

  lemma IdsFreeKept(mac: Mac, m: Machine, tid: Tid)
    requires IdsStored(mac, m) && IdsFree(mac, m) && tid in m.threads && Advance(mac, m, tid).Some?
    requires NoCollision(Advance(mac, m, tid).value.times) && Moves(mac, m, Advance(mac, m, tid).value, tid)
    ensures IdsFree(mac, Advance(mac, m, tid).value)
  {
    hide Advance, MovesLocks, Apply, OpAt, Decided, Id, NoCollision, IdsStored;
    var after := Advance(mac, m, tid).value;
    OwnPending(mac, m, tid);
    forall u <- m.threads | u != tid && Pending(m.threads[u].local).Some?
      ensures var n := m.threads[u].local.n; n < |after.times| && Id(mac, after.times, n) !in after.store.states
    {
      assert Pending(m.threads[u].local) != Pending(m.threads[tid].local);
      UnusedKept(mac, m, tid, m.threads[u].local.n);
    }
  }

  lemma StepKeepsFree(mac: Mac, m: Machine, action: Action)
    requires Inv(mac, m) && IdsFree(mac, m) && NoCollision(Step(mac, m, action).times)
    ensures IdsFree(mac, Step(mac, m, action))
  {
    hide Advance, LocksOk, HistoryOk, Coherent, Moves, LocalOk, NoCollision, Id;
    match action
    case Spawn(tid, call) =>
    case Advancing(tid) =>
      if tid in m.threads && Advance(mac, m, tid).Some? {
        assert LocalOk(m, m.threads[tid]);
        AdvanceMoves(mac, m, tid);
        IdsFreeKept(mac, m, tid);
      }
  }

  lemma InitFree(mac: Mac)
    ensures IdsFree(mac, INIT)
  {}
}
