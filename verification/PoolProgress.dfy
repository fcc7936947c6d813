/** Progress of the pool's locking protocol: the holder of the pool lock never waits, gives the lock
    back after a bounded number of its own steps, and so no state is a deadlock. */
module PoolProgress {
  import opened CText
  import opened PoolLocks

  /** An upper bound on the steps that a thread inside the pool lock still makes there, in a pool of
      n slots. */
  function StepsLeft(pc: Pc, n: nat): nat
    requires SlotsInRange(pc, n)
  {
    match pc
    case Search(_, i) => 2 * (n - i) + 4 * n + 8
    case TryMatch(_, i, _) => 2 * (n - i) + 4 * n + 7
    case Matched(_, _, _, _) => 3
    case CheckFull(_) => 4 * n + 7
    case Probe(_, i, _) => 2 * (n - i) + 2 * n + 6
    case Probed(_, i, _) => 2 * (n - i) + 2 * n + 5
    case Evict(_, _) => 2 * n + 5
    case Add(_, i) => 2 * (n - i) + 4
    case TryAdd(_, i) => 2 * (n - i) + 3
    case Fill(_, _) => 3
    case Take(_, _, _, _) => 2
    case Leave(_, _, _, _) => 1
    case Fail => 1
    case _ => 0
  }

  // From taking the lock on
  function Bound(n: nat): nat {
    6 * n + 8
  }

  lemma {:induction false} WithinBound(pc: Pc, n: nat)
    requires SlotsInRange(pc, n)
    ensures StepsLeft(pc, n) <= Bound(n) && (InPool(pc) <==> StepsLeft(pc, n) > 0)
  {
  }

  /** Every step of a thread inside the pool lock brings it nearer to giving the lock back. */
  lemma {:induction false} OwnStepsCount(s: State, t: Tid, c: Choice)
    requires WellFormed(s) && Enabled(s, t, c) && InPool(s.pc[t])
    ensures var s' := Step(s, t, c);
      SlotsInRange(s'.pc[t], |s.owner|) && StepsLeft(s'.pc[t], |s.owner|) < StepsLeft(s.pc[t], |s.owner|)
  {
    StepMovesOne(s, t, c);
  }

  // The moves of thread t among the moves from a to b
  function OwnMoves(moves: seq<Move>, t: Tid, a: nat, b: nat): nat
    requires a <= b <= |moves|
    decreases b
  {
    if a == b then 0 else OwnMoves(moves, t, a, b - 1) + (if moves[b - 1].t == t then 1 else 0)
  }

  // StepsLeft of thread t in a well-formed state
  ghost function Left(s: State, t: Tid): nat {
    if t in s.pc && SlotsInRange(s.pc[t], |s.owner|) then StepsLeft(s.pc[t], |s.owner|) else 0
  }

  // A move while thread t is inside the pool lock
  lemma {:induction false} OneMovePaid(s: State, m: Move, s': State, t: Tid)
    requires Inv(s) && Moves(s, m, s') && t in s.pc && InPool(s.pc[t])
    ensures t in s'.pc && |s'.owner| == |s.owner|
    ensures Left(s', t) + (if m.t == t then 1 else 0) <= Left(s, t)
  {
    StepEffects(s, m.t, m.c);
    if m.t == t {
      OwnStepsCount(s, t, m.c);
    }
  }

  // While thread t stays inside the pool lock, its moves are paid for by StepsLeft
  lemma {:induction false} MovesArePaid(states: seq<State>, moves: seq<Move>, t: Tid, a: nat, b: nat)
    requires IsRun(states, moves) && a <= b < |states|
    requires forall k :: a <= k < b ==> t in states[k].pc && InPool(states[k].pc[t])
    ensures |states[b].owner| == |states[a].owner|
    ensures OwnMoves(moves, t, a, b) + Left(states[b], t) <= Left(states[a], t)
    decreases b
  {
    if a < b {
      MovesArePaid(states, moves, t, a, b - 1);
      RunsAreSafe(states, moves, b - 1);
      OneMovePaid(states[b - 1], moves[b - 1], states[b], t);
    }
  }

  /** In every interleaving, a thread makes at most 6 n + 8 steps between taking the pool lock and
      giving it back, whatever the other threads and the data do. */
  lemma {:induction false} LockIsBrief(states: seq<State>, moves: seq<Move>, t: Tid, a: nat, b: nat)
    requires IsRun(states, moves) && a <= b < |states|
    requires forall k :: a <= k < b ==> t in states[k].pc && InPool(states[k].pc[t])
    ensures OwnMoves(moves, t, a, b) <= Bound(|states[a].owner|)
  {
    if a < b {
      RunsAreSafe(states, moves, a);
      MovesArePaid(states, moves, t, a, b);
      WithinBound(states[a].pc[t], |states[a].owner|);
    }
  }

  // Every thread but one that waits for the pool lock has a move
  lemma {:induction false} NotWaiting(s: State, t: Tid)
    requires t in s.pc
    ensures (exists c :: Enabled(s, t, c)) <==> !(s.pc[t].LockPool? && s.pool.Some?)
  {
    var c := match s.pc[t] case Idle => Open(Address("", 0)) case Use(_, _, _, _) => Finish case _ => Yes;
    assert !(s.pc[t].LockPool? && s.pool.Some?) ==> Enabled(s, t, c);
  }

  /** In every reachable state a thread has no move only if it waits for the pool lock, and then the
      holder of that lock has one: there is no deadlock. */
  lemma {:induction false} NoDeadlock(s: State, t: Tid)
    requires Reachable(s) && t in s.pc
    ensures (exists c :: Enabled(s, t, c))
            || (s.pool.Some? && s.pool.value in s.pc && exists c :: Enabled(s, s.pool.value, c))
  {
    ReachableInv(s);
    NotWaiting(s, t);
    if s.pool.Some? {
      assert ThreadOk(s, s.pool.value);
      NotWaiting(s, s.pool.value);
    }
  }

  /** From every reachable state the holder of the pool lock can give it back by its own moves alone. */
  lemma {:induction false} HolderFinishes(s: State, t: Tid) returns (s': State)
    requires Reachable(s) && s.pool == Some(t)
    ensures Reachable(s') && s'.pool == None
    ensures |s'.owner| == |s.owner| && t in s.pc && s'.pc.Keys == s.pc.Keys
    ensures forall u :: u in s.pc && u != t ==> s'.pc[u] == s.pc[u]
    decreases Left(s, t)
  {
    ReachableInv(s);
    assert ThreadOk(s, t);
    var s1 := Step(s, t, Yes);
    StepEffects(s, t, Yes);
    ReachNext(s, Move(t, Yes), s1);
    OwnStepsCount(s, t, Yes);
    if s1.pool == Some(t) {
      s' := HolderFinishes(s1, t);
    } else {
      s' := s1;
    }
  }
}
