/** The locking protocol of the shared connection pool (connection.c, connpool.c, prod_proto.c), for
    any number of threads interleaved between any two mutex operations or slot accesses.

    A thread opens a connection under the pool lock, keeps only the slot's own lock while it uses
    the connection, and gives that lock back outside the pool lock. What the slot data decide beyond
    the peer names (counter, ages, credentials, success of the network calls) is left to the
    scheduler, so the results hold for all of it. */
module PoolLocks {
  import opened CText

  type Tid = nat

  datatype Address = Address(name: string, port: nat)

  /** Where a thread is; the comments name the operation that comes next. `free` records whether the
      slot was unlocked, or empty and just locked, when the thread looked at its peer; `same` records
      whether it still had the wanted peer when its lock was taken. */
  datatype Pc =
    | Idle
    | LockPool(peer: Address)                               // edg_wll_poolLock
    | Search(peer: Address, i: nat)                         // ConnectionIndex compares slot i
    | TryMatch(peer: Address, i: nat, free: bool)           // TryLock of a slot that compared equal
    | Matched(peer: Address, i: nat, free: bool, same: bool) // Unlock of that slot
    | CheckFull(peer: Address)                              // connOpened == poolSize
    | Probe(peer: Address, i: nat, best: Option<nat>)        // ReleaseConnection: TryLock of slot i
    | Probed(peer: Address, i: nat, best: Option<nat>)     // Unlock of that slot
    | Evict(peer: Address, i: nat)                          // CloseConnection of the chosen slot
    | Add(peer: Address, i: nat)                            // AddConnection looks at slot i
    | TryAdd(peer: Address, i: nat)                         // TryLock of an empty slot
    | Fill(peer: Address, i: nat)                           // write the peer into the slot
    | Take(peer: Address, i: nat, free: bool, same: bool)   // TryLock of the selected slot
    | Leave(peer: Address, i: nat, free: bool, same: bool)  // edg_wll_poolUnlock
    | Fail                                               // edg_wll_poolUnlock, no connection
    | Use(peer: Address, i: nat, free: bool, same: bool)    // the connection is open
    | Unlock(i: nat)                                     // connectionUnlock

  datatype Choice =
    | Open(peer: Address)     // Idle: edg_wll_open or edg_wll_log_connect
    | Yes | No             // a test on data that is not part of this model
    | TryLockAgain         // Use: the extra TryLock at the end of opening
    | Close                // Use: CloseConnection
    | Finish               // Use: go on to connectionUnlock

  datatype State = State(pool: Option<Tid>, owner: seq<Option<Tid>>, peers: seq<Option<Address>>, pc: map<Tid, Pc>)

  predicate WellFormed(s: State) {
    && |s.peers| == |s.owner|
    && forall t :: t in s.pc ==> SlotsInRange(s.pc[t], |s.owner|)
  }

  predicate SlotsInRange(pc: Pc, n: nat) {
    match pc
    case Search(_, i) => i <= n
    case Probe(_, i, best) => i <= n && (best.Some? ==> best.value < i)
    case Probed(_, i, best) => i < n && (best.Some? ==> best.value < i)
    case Add(_, i) => i <= n
    case TryMatch(_, i, _) => i < n
    case Matched(_, i, _, _) => i < n
    case Evict(_, i) => i < n
    case TryAdd(_, i) => i < n
    case Fill(_, i) => i < n
    case Take(_, i, _, _) => i < n
    case Leave(_, i, _, _) => i < n
    case Use(_, i, _, _) => i < n
    case Unlock(i) => i < n
    case _ => true
  }

  predicate Enabled(s: State, t: Tid, c: Choice) {
    && t in s.pc
    && match s.pc[t]
       case Idle => c.Open?
       case LockPool(_) => c.Yes? && s.pool.None?
       case CheckFull(_) => c.Yes? || c.No?
       case Probed(_, _, _) => c.Yes? || c.No?
       case Use(_, _, _, _) => c.TryLockAgain? || c.Close? || c.Finish?
       case _ => c.Yes?
  }

  // pthread_mutex_trylock by thread t
  function TryLock(owner: seq<Option<Tid>>, i: nat, t: Tid): seq<Option<Tid>>
    requires i < |owner|
  {
    if owner[i].None? then owner[i := Some(t)] else owner
  }

  function At(s: State, t: Tid, pc: Pc): State {
    s.(pc := s.pc[t := pc])
  }

  /** The state after thread `t` made its next step. */
  function Step(s: State, t: Tid, c: Choice): State
    requires WellFormed(s) && Enabled(s, t, c)
  {
    var n := |s.owner|;
    match s.pc[t]
    case Idle => At(s, t, LockPool(c.peer))
    case LockPool(p) => At(s, t, Search(p, 0)).(pool := Some(t))
    case Search(p, i) =>
      if i == n then At(s, t, CheckFull(p))
      else if s.peers[i] == Some(p) then At(s, t, TryMatch(p, i, s.owner[i].None?))
      else At(s, t, Search(p, i + 1))
    case TryMatch(p, i, free) =>
      if s.owner[i].None? then At(s, t, Matched(p, i, free, s.peers[i] == Some(p))).(owner := TryLock(s.owner, i, t))
      else At(s, t, Search(p, i + 1))
    case Matched(p, i, free, same) => At(s, t, Take(p, i, free, same)).(owner := s.owner[i := None])
    case CheckFull(p) => At(s, t, if c.Yes? then Probe(p, 0, None) else Add(p, 0))
    case Probe(p, i, best) =>
      if i == n then At(s, t, if best.Some? then Evict(p, best.value) else Fail)
      else if s.owner[i].None? then At(s, t, Probed(p, i, best)).(owner := TryLock(s.owner, i, t))
      else At(s, t, Probe(p, i + 1, best))
    case Probed(p, i, best) =>
      At(s, t, Probe(p, i + 1, if best.None? || c.Yes? then Some(i) else best)).(owner := s.owner[i := None])
    case Evict(p, i) => At(s, t, Add(p, 0)).(peers := s.peers[i := None])
    case Add(p, i) =>
      if i == n then At(s, t, Fail)
      else if s.peers[i].None? then At(s, t, TryAdd(p, i))
      else At(s, t, Add(p, i + 1))
    case TryAdd(p, i) =>
      if s.owner[i].None? then At(s, t, Fill(p, i)).(owner := TryLock(s.owner, i, t))
      else At(s, t, Add(p, i + 1))
    case Fill(p, i) => At(s, t, Take(p, i, true, true)).(peers := s.peers[i := Some(p)])
    case Take(p, i, free, same) => At(s, t, Leave(p, i, free, same)).(owner := TryLock(s.owner, i, t))
    case Leave(p, i, free, same) => At(s, t, Use(p, i, free, same)).(pool := None)
    case Fail => At(s, t, Idle).(pool := None)
    case Use(p, i, free, same) =>
      if c.TryLockAgain? then s.(owner := TryLock(s.owner, i, t))
      else if c.Close? then At(s, t, Unlock(i)).(peers := s.peers[i := None])
      else At(s, t, Unlock(i))
    case Unlock(i) => At(s, t, Idle).(owner := s.owner[i := None])
  }

  // ---------- What every step keeps ----------

  // Between taking the pool lock and giving it back
  predicate InPool(pc: Pc) {
    !pc.Idle? && !pc.LockPool? && !pc.Use? && !pc.Unlock?
  }

  // The slot whose lock the thread believes to hold
  function HeldSlot(pc: Pc): Option<nat> {
    match pc
    case Matched(_, i, _, _) => Some(i)
    case Probed(_, i, _) => Some(i)
    case Fill(_, i) => Some(i)
    case Leave(_, i, _, _) => Some(i)
    case Use(_, i, _, _) => Some(i)
    case Unlock(i) => Some(i)
    case _ => None
  }

  // A slot that the thread will use or close without having its lock yet
  function SelectedSlot(pc: Pc): Option<nat> {
    match pc
    case Take(_, i, _, _) => Some(i)
    case Evict(_, i) => Some(i)
    case Probe(_, _, best) => best
    case Probed(_, _, best) => best
    case _ => None
  }

  // The thread may hold the lock of slot i
  predicate MayHold(pc: Pc, i: nat) {
    HeldSlot(pc) == Some(i) || (pc.Take? && pc.i == i)
  }

  // The thread has a slot for its peer; `same` says whether the slot had that peer when its lock was taken
  predicate HasSlot(pc: Pc) {
    pc.Matched? || pc.Take? || pc.Leave? || pc.Use?
  }

  // What the invariant says about thread t
  ghost predicate LocksOk(s: State, t: Tid)
    requires WellFormed(s) && t in s.pc
  {
    var pc := s.pc[t];
    && (InPool(pc) <==> s.pool == Some(t))
    && (HeldSlot(pc).Some? ==> s.owner[HeldSlot(pc).value] == Some(t))
  }

  ghost predicate SelectionOk(s: State, t: Tid)
    requires WellFormed(s) && t in s.pc
  {
    var pc := s.pc[t];
    SelectedSlot(pc).Some? ==>
      var o := s.owner[SelectedSlot(pc).value];
      o.None? || (pc.Take? && o == Some(t))
  }

  ghost predicate MatchOk(s: State, t: Tid)
    requires WellFormed(s) && t in s.pc
  {
    var pc := s.pc[t];
    pc.TryMatch? && pc.free ==> s.owner[pc.i].None? && s.peers[pc.i] == Some(pc.peer)
  }

  ghost predicate PeerOk(s: State, t: Tid)
    requires WellFormed(s) && t in s.pc
  {
    var pc := s.pc[t];
    && (HasSlot(pc) ==> (pc.same <==> s.peers[pc.i] == Some(pc.peer)))
    && (HasSlot(pc) && pc.free ==> pc.same)
  }

  ghost predicate ThreadOk(s: State, t: Tid)
    requires WellFormed(s) && t in s.pc
  {
    LocksOk(s, t) && SelectionOk(s, t) && MatchOk(s, t) && PeerOk(s, t)
  }

  // What the invariant says about slot i
  ghost predicate SlotOk(s: State, i: nat)
    requires i < |s.owner|
  {
    s.owner[i].Some? ==> s.owner[i].value in s.pc && MayHold(s.pc[s.owner[i].value], i)
  }

  ghost predicate Inv(s: State) {
    && WellFormed(s)
    && (s.pool.Some? ==> s.pool.value in s.pc)
    && (forall t :: t in s.pc ==> ThreadOk(s, t))
    && (forall i :: 0 <= i < |s.owner| ==> SlotOk(s, i))
  }

  // ---------- What a step of thread t can change ----------

  ghost predicate LockEffect(s: State, s': State, t: Tid, i: nat)
    requires t in s.pc && i < |s.owner| && |s'.owner| == |s.owner|
  {
    || s'.owner[i] == s.owner[i]
    || (InPool(s.pc[t]) && s.owner[i] == None && s'.owner[i] == Some(t))
    || (HeldSlot(s.pc[t]) == Some(i) && s'.owner[i] == None)
  }

  ghost predicate PeerEffect(s: State, s': State, t: Tid, i: nat)
    requires t in s.pc && i < |s.peers| && |s'.peers| == |s.peers|
  {
    s'.peers[i] == s.peers[i] || HeldSlot(s.pc[t]) == Some(i) || (s.pc[t].Evict? && s.pc[t].i == i)
  }

  ghost predicate PoolEffect(s: State, s': State, t: Tid) {
    s'.pool == s.pool || (s.pool == None && s'.pool == Some(t)) || (s.pool == Some(t) && s'.pool == None)
  }

  lemma {:induction false} StepChangesLocks(s: State, t: Tid, c: Choice, i: nat)
    requires WellFormed(s) && Enabled(s, t, c) && ThreadOk(s, t) && i < |s.owner|
    ensures |Step(s, t, c).owner| == |s.owner| && LockEffect(s, Step(s, t, c), t, i)
  {
  }

  lemma {:induction false} StepChangesPeers(s: State, t: Tid, c: Choice, i: nat)
    requires WellFormed(s) && Enabled(s, t, c) && i < |s.owner|
    ensures |Step(s, t, c).peers| == |s.peers| && PeerEffect(s, Step(s, t, c), t, i)
  {
  }

  lemma {:induction false} StepChangesPool(s: State, t: Tid, c: Choice)
    requires WellFormed(s) && Enabled(s, t, c) && ThreadOk(s, t)
    ensures PoolEffect(s, Step(s, t, c), t)
  {
  }

  lemma {:induction false} StepMovesOne(s: State, t: Tid, c: Choice)
    requires WellFormed(s) && Enabled(s, t, c)
    ensures var s' := Step(s, t, c); s'.pc == s.pc[t := s'.pc[t]] && SlotsInRange(s'.pc[t], |s.owner|)
  {
  }

  lemma {:induction false} StepOwnPool(s: State, t: Tid, c: Choice)
    requires WellFormed(s) && Enabled(s, t, c) && ThreadOk(s, t)
    ensures var s' := Step(s, t, c); InPool(s'.pc[t]) <==> s'.pool == Some(t)
  {
  }

  lemma {:induction false} StepOwnLocks(s: State, t: Tid, c: Choice)
    requires WellFormed(s) && Enabled(s, t, c) && ThreadOk(s, t) && WellFormed(Step(s, t, c))
    ensures var s' := Step(s, t, c);
            HeldSlot(s'.pc[t]).Some? ==> s'.owner[HeldSlot(s'.pc[t]).value] == Some(t)
  {
  }

  lemma {:induction false} StepOwnSelection(s: State, t: Tid, c: Choice)
    requires WellFormed(s) && Enabled(s, t, c) && ThreadOk(s, t) && WellFormed(Step(s, t, c))
    ensures SelectionOk(Step(s, t, c), t)
  {
  }

  lemma {:induction false} StepOwnMatch(s: State, t: Tid, c: Choice)
    requires WellFormed(s) && Enabled(s, t, c) && WellFormed(Step(s, t, c))
    ensures MatchOk(Step(s, t, c), t)
  {
  }

  lemma {:induction false} StepOwnPeer(s: State, t: Tid, c: Choice)
    requires WellFormed(s) && Enabled(s, t, c) && ThreadOk(s, t) && WellFormed(Step(s, t, c))
    ensures PeerOk(Step(s, t, c), t)
  {
  }

  lemma {:induction false} StepOwnSlots(s: State, t: Tid, c: Choice, i: nat)
    requires WellFormed(s) && Enabled(s, t, c) && ThreadOk(s, t) && i < |s.owner| && SlotOk(s, i)
    ensures var s' := Step(s, t, c);
            i < |s'.owner| && (s'.owner[i] == Some(t) ==> MayHold(s'.pc[t], i))
  {
  }

  /** The steps of one thread leave the others' part of the invariant alone. */
  lemma {:induction false} OthersUndisturbed(s: State, s': State, t: Tid, u: Tid)
    requires WellFormed(s) && WellFormed(s') && t in s.pc && u in s.pc && t != u
    requires ThreadOk(s, t) && ThreadOk(s, u)
    requires u in s'.pc && s'.pc[u] == s.pc[u] && |s'.owner| == |s.owner| && PoolEffect(s, s', t)
    requires forall i :: 0 <= i < |s.owner| ==> LockEffect(s, s', t, i) && PeerEffect(s, s', t, i)
    ensures ThreadOk(s', u)
  {
    var pc := s.pc[u];
    if HeldSlot(pc).Some? {
      assert LockEffect(s, s', t, HeldSlot(pc).value);
    }
    if SelectedSlot(pc).Some? {
      assert LockEffect(s, s', t, SelectedSlot(pc).value);
    }
    if HasSlot(pc) || pc.TryMatch? {
      assert LockEffect(s, s', t, pc.i) && PeerEffect(s, s', t, pc.i);
    }
  }

  // All effects of a step together
  lemma {:induction false} StepEffects(s: State, t: Tid, c: Choice)
    requires Inv(s) && Enabled(s, t, c)
    ensures var s' := Step(s, t, c);
      && WellFormed(s') && PoolEffect(s, s', t) && s'.pc == s.pc[t := s'.pc[t]] && |s'.owner| == |s.owner|
      && forall i :: 0 <= i < |s.owner| ==> LockEffect(s, s', t, i) && PeerEffect(s, s', t, i)
  {
    var s' := Step(s, t, c);
    StepMovesOne(s, t, c);
    StepChangesPool(s, t, c);
    forall i | 0 <= i < |s.owner|
      ensures |s'.owner| == |s.owner| && |s'.peers| == |s.peers|
      ensures LockEffect(s, s', t, i) && PeerEffect(s, s', t, i)
    {
      StepChangesLocks(s, t, c, i);
      StepChangesPeers(s, t, c, i);
    }
  }

  lemma {:induction false} StepKeepsThread(s: State, t: Tid, c: Choice, u: Tid)
    requires Inv(s) && Enabled(s, t, c) && WellFormed(Step(s, t, c)) && u in Step(s, t, c).pc
    ensures ThreadOk(Step(s, t, c), u)
  {
    StepEffects(s, t, c);
    if u == t {
      StepOwnPool(s, t, c);
      StepOwnLocks(s, t, c);
      StepOwnSelection(s, t, c);
      StepOwnMatch(s, t, c);
      StepOwnPeer(s, t, c);
    } else {
      OthersUndisturbed(s, Step(s, t, c), t, u);
    }
  }

  /** Every step of every thread keeps the invariant. */
  lemma {:induction false} StepKeepsInv(s: State, t: Tid, c: Choice)
    requires Inv(s) && Enabled(s, t, c)
    ensures Inv(Step(s, t, c))
  {
    var s' := Step(s, t, c);
    StepEffects(s, t, c);
    forall u | u in s'.pc
      ensures ThreadOk(s', u)
    {
      StepKeepsThread(s, t, c, u);
    }
    forall i | 0 <= i < |s'.owner|
      ensures SlotOk(s', i)
    {
      StepOwnSlots(s, t, c, i);
      assert LockEffect(s, s', t, i) && SlotOk(s, i);
    }
  }

  // ---------- Runs ----------

  ghost predicate Init(s: State) {
    && s.pool == None && |s.peers| == |s.owner|
    && (forall i :: 0 <= i < |s.owner| ==> s.owner[i] == None)
    && (forall t :: t in s.pc ==> s.pc[t] == Idle)
  }

  datatype Move = Move(t: Tid, c: Choice)

  ghost predicate Moves(s: State, m: Move, s': State) {
    WellFormed(s) && Enabled(s, m.t, m.c) && s' == Step(s, m.t, m.c)
  }

  /** Any interleaving: in each step any thread makes any of its possible moves. */
  ghost predicate IsRun(states: seq<State>, moves: seq<Move>) {
    && |states| == |moves| + 1 && Init(states[0])
    && forall k :: 0 <= k < |moves| ==> Moves(states[k], moves[k], states[k + 1])
  }

  // What is promised in every state, said in terms of the locks and of where the threads are

  /** Two threads never have the same connection, and never work on the pool at the same time. */
  ghost predicate Exclusive(s: State) {
    && (forall t, u :: t in s.pc && u in s.pc && t != u && HeldSlot(s.pc[t]).Some? ==>
          HeldSlot(s.pc[t]) != HeldSlot(s.pc[u]))
    && (forall t, u :: t in s.pc && u in s.pc && t != u ==> !InPool(s.pc[t]) || !InPool(s.pc[u]))
  }

  /** Every unlock, of a slot or of the pool, is by the holder of the lock. */
  ghost predicate UnlockedByHolder(s: State)
    requires WellFormed(s)
  {
    && (forall t :: t in s.pc && HeldSlot(s.pc[t]).Some? ==> s.owner[HeldSlot(s.pc[t]).value] == Some(t))
    && (forall t :: t in s.pc && InPool(s.pc[t]) ==> s.pool == Some(t))
  }

  /** The TryLock whose result nobody looks at leaves the lock with this thread. */
  ghost predicate TakeSucceeds(s: State)
    requires WellFormed(s)
  {
    forall t :: t in s.pc && s.pc[t].Take? ==> TryLock(s.owner, s.pc[t].i, t)[s.pc[t].i] == Some(t)
  }

  /** The connection that is closed to make room is nobody's. */
  ghost predicate EvictsUnused(s: State)
    requires WellFormed(s)
  {
    forall t :: t in s.pc && s.pc[t].Evict? ==>
      s.owner[s.pc[t].i] == None && forall u :: u in s.pc ==> HeldSlot(s.pc[u]) != Some(s.pc[t].i)
  }

  /** A thread outside of opening and using a connection holds no lock at all. */
  ghost predicate IdleHoldsNothing(s: State) {
    forall t :: t in s.pc && (s.pc[t].Idle? || s.pc[t].LockPool?) ==> s.pool != Some(t) && Some(t) !in s.owner
  }

  /** An open connection leads to the requested peer whenever its slot was not locked when the peer
      names were compared; `same` says whether it did in this run. The exact condition at the
      comparison is PoolRaces.RightPeerIff. */
  ghost predicate PeerKept(s: State)
    requires WellFormed(s)
  {
    && (forall t :: t in s.pc && s.pc[t].Use? && s.pc[t].free ==> s.peers[s.pc[t].i] == Some(s.pc[t].peer))
    && (forall t :: t in s.pc && s.pc[t].Use? ==> (s.pc[t].same <==> s.peers[s.pc[t].i] == Some(s.pc[t].peer)))
  }

  ghost predicate Safe(s: State) {
    && WellFormed(s) && Exclusive(s) && UnlockedByHolder(s) && TakeSucceeds(s) && EvictsUnused(s)
    && IdleHoldsNothing(s) && PeerKept(s)
  }

  lemma {:induction false} InvIsExclusive(s: State)
    requires Inv(s)
    ensures Exclusive(s)
  {
    forall t, u | t in s.pc && u in s.pc && t != u
      ensures HeldSlot(s.pc[t]).Some? ==> HeldSlot(s.pc[t]) != HeldSlot(s.pc[u])
      ensures !InPool(s.pc[t]) || !InPool(s.pc[u])
    {
      assert ThreadOk(s, t) && ThreadOk(s, u);
    }
  }

  lemma {:induction false} InvEvictsUnused(s: State)
    requires Inv(s)
    ensures EvictsUnused(s)
  {
    forall t, u | t in s.pc && s.pc[t].Evict? && u in s.pc
      ensures s.owner[s.pc[t].i] == None && HeldSlot(s.pc[u]) != Some(s.pc[t].i)
    {
      assert ThreadOk(s, t) && ThreadOk(s, u);
    }
    forall t | t in s.pc && s.pc[t].Evict?
      ensures s.owner[s.pc[t].i] == None
    {
      assert ThreadOk(s, t);
    }
  }

  lemma {:induction false} InvIdleHoldsNothing(s: State)
    requires Inv(s)
    ensures IdleHoldsNothing(s)
  {
    forall t, i | t in s.pc && (s.pc[t].Idle? || s.pc[t].LockPool?) && 0 <= i < |s.owner|
      ensures s.owner[i] != Some(t)
    {
      assert SlotOk(s, i);
    }
    forall t | t in s.pc && (s.pc[t].Idle? || s.pc[t].LockPool?)
      ensures s.pool != Some(t)
    {
      assert ThreadOk(s, t);
    }
  }

  lemma {:induction false} InvOneThread(s: State)
    requires Inv(s)
    ensures UnlockedByHolder(s) && TakeSucceeds(s) && PeerKept(s)
  {
    forall t | t in s.pc
      ensures HeldSlot(s.pc[t]).Some? ==> s.owner[HeldSlot(s.pc[t]).value] == Some(t)
      ensures InPool(s.pc[t]) ==> s.pool == Some(t)
      ensures s.pc[t].Take? ==> TryLock(s.owner, s.pc[t].i, t)[s.pc[t].i] == Some(t)
      ensures s.pc[t].Use? && s.pc[t].free ==> s.peers[s.pc[t].i] == Some(s.pc[t].peer)
      ensures s.pc[t].Use? ==> (s.pc[t].same <==> s.peers[s.pc[t].i] == Some(s.pc[t].peer))
    {
      assert ThreadOk(s, t);
    }
  }

  lemma {:induction false} InvIsSafe(s: State)
    requires Inv(s)
    ensures Safe(s)
  {
    InvIsExclusive(s);
    InvEvictsUnused(s);
    InvIdleHoldsNothing(s);
    InvOneThread(s);
  }

  /** In every interleaving of any number of threads, every state is safe. */
  lemma {:induction false} RunsAreSafe(states: seq<State>, moves: seq<Move>, k: nat)
    requires IsRun(states, moves) && k < |states|
    ensures Inv(states[k]) && Safe(states[k])
  {
    if k > 0 {
      RunsAreSafe(states, moves, k - 1);
      assert Moves(states[k - 1], moves[k - 1], states[k]);
      StepKeepsInv(states[k - 1], moves[k - 1].t, moves[k - 1].c);
    }
    InvIsSafe(states[k]);
  }

  // ---------- What is not protected by the slot's lock ----------

  // A pool of one slot and two threads
  function Two(pool: Option<Tid>, owner: Option<Tid>, peer: Option<Address>, pc0: Pc, pc1: Pc): State {
    State(pool, [owner], [peer], map[0 := pc0, 1 := pc1])
  }

  ghost predicate Reachable(s: State) {
    exists states: seq<State>, moves: seq<Move> :: IsRun(states, moves) && states[|moves|] == s
  }

  lemma {:induction false} ReachableInv(s: State)
    requires Reachable(s)
    ensures Inv(s) && Safe(s)
  {
    var states: seq<State>, moves: seq<Move> :| IsRun(states, moves) && states[|moves|] == s;
    RunsAreSafe(states, moves, |moves|);
  }

  lemma {:induction false} ReachNext(s: State, m: Move, s': State)
    requires Reachable(s) && Moves(s, m, s')
    ensures Reachable(s')
  {
    var states: seq<State>, moves: seq<Move> :| IsRun(states, moves) && states[|moves|] == s;
    var states', moves' := states + [s'], moves + [m];
    forall k | 0 <= k < |moves'|
      ensures Moves(states'[k], moves'[k], states'[k + 1])
    {
      if k < |moves| {
        assert Moves(states[k], moves[k], states[k + 1]);
      }
    }
    assert IsRun(states', moves') && states'[|moves'|] == s';
  }

  // A move of thread t leads from s to s', compared part by part
  ghost predicate Leads(s: State, t: Tid, c: Choice, s': State) {
    WellFormed(s) && Enabled(s, t, c) && SameAfter(Step(s, t, c), s', t) && SameOther(s, s', t)
  }

  ghost predicate SameAfter(u: State, s': State, t: Tid) {
    u.pool == s'.pool && u.owner == s'.owner && u.peers == s'.peers && t in u.pc && t in s'.pc && u.pc[t] == s'.pc[t]
  }

  ghost predicate SameOther(s: State, s': State, t: Tid) {
    t < 2 && s.pc.Keys == s'.pc.Keys == {0, 1} && s'.pc[1 - t] == s.pc[1 - t]
  }

  lemma {:induction false} Go(t: Tid, c: Choice, s: State, s': State)
    requires Reachable(s) && Leads(s, t, c, s')
    ensures Reachable(s')
  {
    StepMovesOne(s, t, c);
    var u := Step(s, t, c);
    assert u.pc.Keys == {0, 1};
    assert u.pc == s'.pc;
    ReachNext(s, Move(t, c), s');
  }

  lemma {:induction false} StartReachable(p: Address)
    ensures Reachable(Two(None, None, Some(p), Idle, Idle))
  {
    var s := Two(None, None, Some(p), Idle, Idle);
    var none: seq<Move> := [];
    assert IsRun([s], none) && [s][|none|] == s;
  }

  // A pool with one cached connection; thread 0 finds it
  lemma {:induction false} FirstFinds(p: Address)
    ensures Reachable(Two(Some(0), None, Some(p), TryMatch(p, 0, true), Idle))
  {
    StartReachable(p);
    assert Reachable(Two(None, None, Some(p), LockPool(p), Idle)) by {
      Go(0, Open(p), Two(None, None, Some(p), Idle, Idle),
         Two(None, None, Some(p), LockPool(p), Idle));
    }
    assert Reachable(Two(Some(0), None, Some(p), Search(p, 0), Idle)) by {
      Go(0, Yes, Two(None, None, Some(p), LockPool(p), Idle),
         Two(Some(0), None, Some(p), Search(p, 0), Idle));
    }
    assert Reachable(Two(Some(0), None, Some(p), TryMatch(p, 0, true), Idle)) by {
      Go(0, Yes, Two(Some(0), None, Some(p), Search(p, 0), Idle),
         Two(Some(0), None, Some(p), TryMatch(p, 0, true), Idle));
    }
  }

  // and takes it
  lemma {:induction false} FirstMatches(p: Address)
    ensures Reachable(Two(Some(0), None, Some(p), Take(p, 0, true, true), Idle))
  {
    FirstFinds(p);
    assert Reachable(Two(Some(0), Some(0), Some(p), Matched(p, 0, true, true), Idle)) by {
      Go(0, Yes, Two(Some(0), None, Some(p), TryMatch(p, 0, true), Idle),
         Two(Some(0), Some(0), Some(p), Matched(p, 0, true, true), Idle));
    }
    assert Reachable(Two(Some(0), None, Some(p), Take(p, 0, true, true), Idle)) by {
      Go(0, Yes, Two(Some(0), Some(0), Some(p), Matched(p, 0, true, true), Idle),
         Two(Some(0), None, Some(p), Take(p, 0, true, true), Idle));
    }
  }

  lemma {:induction false} FirstUses(p: Address)
    ensures Reachable(Two(None, Some(0), Some(p), Use(p, 0, true, true), Idle))
  {
    FirstMatches(p);
    assert Reachable(Two(Some(0), Some(0), Some(p), Leave(p, 0, true, true), Idle)) by {
      Go(0, Yes, Two(Some(0), None, Some(p), Take(p, 0, true, true), Idle),
         Two(Some(0), Some(0), Some(p), Leave(p, 0, true, true), Idle));
    }
    assert Reachable(Two(None, Some(0), Some(p), Use(p, 0, true, true), Idle)) by {
      Go(0, Yes, Two(Some(0), Some(0), Some(p), Leave(p, 0, true, true), Idle),
         Two(None, Some(0), Some(p), Use(p, 0, true, true), Idle));
    }
  }

  // While thread 0 uses the connection, thread 1 looks for one to q
  lemma {:induction false} SecondSearches(p: Address, q: Address)
    ensures Reachable(Two(Some(1), Some(0), Some(p), Use(p, 0, true, true), Search(q, 0)))
  {
    FirstUses(p);
    assert Reachable(Two(None, Some(0), Some(p), Use(p, 0, true, true), LockPool(q))) by {
      Go(1, Open(q), Two(None, Some(0), Some(p), Use(p, 0, true, true), Idle),
         Two(None, Some(0), Some(p), Use(p, 0, true, true), LockPool(q)));
    }
    assert Reachable(Two(Some(1), Some(0), Some(p), Use(p, 0, true, true), Search(q, 0))) by {
      Go(1, Yes, Two(None, Some(0), Some(p), Use(p, 0, true, true), LockPool(q)),
         Two(Some(1), Some(0), Some(p), Use(p, 0, true, true), Search(q, 0)));
    }
  }

  // Thread 1 finds the locked slot equal, thread 0 closes it
  lemma {:induction false} FirstCloses(p: Address)
    ensures Reachable(Two(Some(1), Some(0), None, Unlock(0), TryMatch(p, 0, false)))
  {
    SecondSearches(p, p);
    assert Reachable(Two(Some(1), Some(0), Some(p), Use(p, 0, true, true), TryMatch(p, 0, false))) by {
      Go(1, Yes, Two(Some(1), Some(0), Some(p), Use(p, 0, true, true), Search(p, 0)),
         Two(Some(1), Some(0), Some(p), Use(p, 0, true, true), TryMatch(p, 0, false)));
    }
    assert Reachable(Two(Some(1), Some(0), None, Unlock(0), TryMatch(p, 0, false))) by {
      Go(0, Close, Two(Some(1), Some(0), Some(p), Use(p, 0, true, true), TryMatch(p, 0, false)),
         Two(Some(1), Some(0), None, Unlock(0), TryMatch(p, 0, false)));
    }
  }

  // and unlocks it, and only then thread 1 locks it
  lemma {:induction false} SecondLocks(p: Address)
    ensures Reachable(Two(Some(1), Some(1), None, Idle, Matched(p, 0, false, false)))
  {
    FirstCloses(p);
    assert Reachable(Two(Some(1), None, None, Idle, TryMatch(p, 0, false))) by {
      Go(0, Yes, Two(Some(1), Some(0), None, Unlock(0), TryMatch(p, 0, false)),
         Two(Some(1), None, None, Idle, TryMatch(p, 0, false)));
    }
    assert Reachable(Two(Some(1), Some(1), None, Idle, Matched(p, 0, false, false))) by {
      Go(1, Yes, Two(Some(1), None, None, Idle, TryMatch(p, 0, false)),
         Two(Some(1), Some(1), None, Idle, Matched(p, 0, false, false)));
    }
  }

  lemma {:induction false} SecondTakes(p: Address)
    ensures Reachable(Two(Some(1), Some(1), None, Idle, Leave(p, 0, false, false)))
  {
    SecondLocks(p);
    assert Reachable(Two(Some(1), None, None, Idle, Take(p, 0, false, false))) by {
      Go(1, Yes, Two(Some(1), Some(1), None, Idle, Matched(p, 0, false, false)),
         Two(Some(1), None, None, Idle, Take(p, 0, false, false)));
    }
    assert Reachable(Two(Some(1), Some(1), None, Idle, Leave(p, 0, false, false))) by {
      Go(1, Yes, Two(Some(1), None, None, Idle, Take(p, 0, false, false)),
         Two(Some(1), Some(1), None, Idle, Leave(p, 0, false, false)));
    }
  }

  /** The condition in PeerKept matters: a slot that is locked compares equal, its holder closes and
      unlocks it, and only then is it locked; the second thread ends up with a slot that has no peer. */
  lemma {:induction false} StaleMatch(p: Address)
    ensures Reachable(Two(None, Some(1), None, Idle, Use(p, 0, false, false)))
  {
    SecondTakes(p);
    assert Reachable(Two(None, Some(1), None, Idle, Use(p, 0, false, false))) by {
      Go(1, Yes, Two(Some(1), Some(1), None, Idle, Leave(p, 0, false, false)),
         Two(None, Some(1), None, Idle, Use(p, 0, false, false)));
    }
  }

  // Every slot has a peer when thread 1 compares the counter with the pool size
  lemma {:induction false} PoolIsFull(p: Address, q: Address)
    requires p != q
    ensures Reachable(Two(Some(1), Some(0), Some(p), Use(p, 0, true, true), CheckFull(q)))
  {
    SecondSearches(p, q);
    assert Reachable(Two(Some(1), Some(0), Some(p), Use(p, 0, true, true), Search(q, 1))) by {
      Go(1, Yes, Two(Some(1), Some(0), Some(p), Use(p, 0, true, true), Search(q, 0)),
         Two(Some(1), Some(0), Some(p), Use(p, 0, true, true), Search(q, 1)));
    }
    assert Reachable(Two(Some(1), Some(0), Some(p), Use(p, 0, true, true), CheckFull(q))) by {
      Go(1, Yes, Two(Some(1), Some(0), Some(p), Use(p, 0, true, true), Search(q, 1)),
         Two(Some(1), Some(0), Some(p), Use(p, 0, true, true), CheckFull(q)));
    }
  }

  /** The assertion of ReleaseConnection, that every slot of a full pool has a peer, can fail: when the
      counter is compared every slot has one, but before the slot is looked at its holder closes it,
      which needs no pool lock. */
  lemma {:induction false} FullPoolEmptied(p: Address, q: Address)
    requires p != q
    ensures Reachable(Two(Some(1), Some(0), Some(p), Use(p, 0, true, true), CheckFull(q)))
    ensures Reachable(Two(Some(1), Some(0), None, Unlock(0), Probe(q, 0, None)))
  {
    PoolIsFull(p, q);
    assert Reachable(Two(Some(1), Some(0), Some(p), Use(p, 0, true, true), Probe(q, 0, None))) by {
      Go(1, Yes, Two(Some(1), Some(0), Some(p), Use(p, 0, true, true), CheckFull(q)),
         Two(Some(1), Some(0), Some(p), Use(p, 0, true, true), Probe(q, 0, None)));
    }
    assert Reachable(Two(Some(1), Some(0), None, Unlock(0), Probe(q, 0, None))) by {
      Go(0, Close, Two(Some(1), Some(0), Some(p), Use(p, 0, true, true), Probe(q, 0, None)),
         Two(Some(1), Some(0), None, Unlock(0), Probe(q, 0, None)));
    }
  }
}
