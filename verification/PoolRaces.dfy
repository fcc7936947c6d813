/** The two places where the pool relies on a slot whose lock the thread does not hold: comparing peer
    names, and assuming that every slot of a full pool has a peer. Both go wrong in some interleavings.
    For each one it is stated exactly, in terms of where the other threads are, when none can go wrong. */
module PoolRaces {
  import opened CText
  import opened PoolLocks

  /** What a thread is doing: from comparing slot i with its peer to using it, or looking through a
      full pool for the oldest connection. */
  datatype Phase = Matching(peer: Address, i: nat) | Releasing

  predicate InPhase(pc: Pc, phase: Phase) {
    match phase
    case Matching(p, i) =>
      (pc.Search? || pc.TryMatch? || pc.Matched? || pc.Take? || pc.Leave? || pc.Use?) && pc.peer == p && pc.i == i
    case Releasing => pc.CheckFull? || pc.Probe? || pc.Probed?
  }

  ghost predicate StaysIn(states: seq<State>, t: Tid, phase: Phase) {
    forall k :: 0 <= k < |states| ==> t in states[k].pc && InPhase(states[k].pc[t], phase)
  }

  ghost predicate IsPath(states: seq<State>, moves: seq<Move>) {
    && |states| == |moves| + 1
    && forall k :: 0 <= k < |moves| ==> Moves(states[k], moves[k], states[k + 1])
  }

  /** Moves of any threads lead from s to s', and thread t is in the phase all the time. */
  ghost predicate Within(s: State, t: Tid, phase: Phase, s': State) {
    exists states: seq<State>, moves: seq<Move> ::
      IsPath(states, moves) && StaysIn(states, t, phase) && states[0] == s && states[|moves|] == s'
  }

  ghost predicate UsedByOther(s: State, t: Tid, i: nat) {
    exists u :: u in s.pc && u != t && UsesSlot(s.pc[u], i)
  }

  predicate UsesSlot(pc: Pc, i: nat) {
    pc.Use? && pc.i == i
  }

  // ---------- Paths ----------

  lemma {:induction false} Start(s: State, t: Tid, phase: Phase)
    requires t in s.pc && InPhase(s.pc[t], phase)
    ensures Within(s, t, phase, s)
  {
    var moves: seq<Move> := [];
    assert IsPath([s], moves) && StaysIn([s], t, phase) && [s][|moves|] == s;
  }

  lemma {:induction false} Extend(s: State, t: Tid, phase: Phase, s1: State, m: Move, s2: State)
    requires Within(s, t, phase, s1) && Moves(s1, m, s2) && t in s2.pc && InPhase(s2.pc[t], phase)
    ensures Within(s, t, phase, s2)
  {
    var states: seq<State>, moves: seq<Move> :|
      IsPath(states, moves) && StaysIn(states, t, phase) && states[0] == s && states[|moves|] == s1;
    var states', moves' := states + [s2], moves + [m];
    forall k | 0 <= k < |moves'| ensures Moves(states'[k], moves'[k], states'[k + 1]) {
      if k < |moves| {
        assert Moves(states[k], moves[k], states[k + 1]);
      }
    }
    forall k | 0 <= k < |states'| ensures t in states'[k].pc && InPhase(states'[k].pc[t], phase) {
      assert k < |states| ==> states'[k] == states[k];
    }
    assert IsPath(states', moves') && StaysIn(states', t, phase) && states'[|moves'|] == s2;
  }

  ghost predicate Continues(s: State, t: Tid, phase: Phase) {
    t in s.pc && InPhase(s.pc[t], phase)
  }

  // A further move of thread t that stays in the phase
  lemma {:induction false} Go(s: State, t: Tid, phase: Phase, s1: State, c: Choice) returns (s2: State)
    requires Within(s, t, phase, s1) && Inv(s1) && Enabled(s1, t, c) && Continues(Step(s1, t, c), t, phase)
    ensures s2 == Step(s1, t, c) && Inv(s2) && Within(s, t, phase, s2)
    ensures t in s2.pc && s2.pc == s1.pc[t := s2.pc[t]]
  {
    s2 := Step(s1, t, c);
    StepMovesOne(s1, t, c);
    StepKeepsInv(s1, t, c);
    Extend(s, t, phase, s1, Move(t, c), s2);
  }

  // A further move of another thread
  lemma {:induction false} OtherGoes(s: State, t: Tid, phase: Phase, s1: State, u: Tid, c: Choice) returns (s2: State)
    requires Within(s, t, phase, s1) && Inv(s1) && Enabled(s1, u, c) && u != t && Continues(s1, t, phase)
    ensures s2 == Step(s1, u, c) && Inv(s2) && Within(s, t, phase, s2)
    ensures u in s2.pc && s2.pc == s1.pc[u := s2.pc[u]]
  {
    s2 := Step(s1, u, c);
    StepMovesOne(s1, u, c);
    StepKeepsInv(s1, u, c);
    Extend(s, t, phase, s1, Move(u, c), s2);
  }

  // ---------- What is kept ----------

  // Which moves change the peer of a slot
  lemma {:induction false} PeerWriters(s: State, t: Tid, c: Choice, i: nat)
    requires WellFormed(s) && Enabled(s, t, c) && i < |s.owner|
    ensures var s', pc := Step(s, t, c), s.pc[t];
      && |s'.peers| == |s.peers|
      && (s'.peers[i] != s.peers[i] ==>
            (pc.Fill? && pc.i == i) || (pc.Evict? && pc.i == i) || (UsesSlot(pc, i) && s'.pc[t].Unlock?))
  {
  }

  // How a thread gets to use a slot
  lemma {:induction false} UseComesFrom(s: State, t: Tid, c: Choice, i: nat)
    requires WellFormed(s) && Enabled(s, t, c) && UsesSlot(Step(s, t, c).pc[t], i)
    ensures UsesSlot(s.pc[t], i) || (s.pc[t].Leave? && s.pc[t].i == i)
  {
  }

  /** Slot i has peer a, and no thread but t can close it. */
  ghost predicate Kept(s: State, t: Tid, i: nat, a: Address) {
    i < |s.peers| && s.peers[i] == Some(a) && !UsedByOther(s, t, i)
  }

  // A thread that is in the phase keeps all others from becoming dangerous to slot i
  lemma {:induction false} OthersHarmless(s: State, t: Tid, phase: Phase, i: nat, u: Tid)
    requires Inv(s) && t in s.pc && u in s.pc && u != t && InPhase(s.pc[t], phase)
    requires phase.Matching? ==> phase.i == i
    ensures var pc := s.pc[u]; !((pc.Fill? || pc.Evict? || pc.Leave?) && pc.i == i)
  {
    InvIsExclusive(s);
    InvEvictsUnused(s);
    if s.pc[t].Use? {
      assert HeldSlot(s.pc[t]) == Some(i);
    }
  }

  lemma {:induction false} OwnStepKeeps(s: State, t: Tid, phase: Phase, c: Choice, i: nat, a: Address)
    requires Inv(s) && Enabled(s, t, c) && Kept(s, t, i, a)
    requires InPhase(s.pc[t], phase) && InPhase(Step(s, t, c).pc[t], phase)
    ensures Kept(Step(s, t, c), t, i, a)
  {
    PeerWriters(s, t, c, i);
    StepMovesOne(s, t, c);
    var s' := Step(s, t, c);
    forall u | u in s'.pc && u != t ensures !UsesSlot(s'.pc[u], i) {
      assert u in s.pc && s'.pc[u] == s.pc[u];
    }
  }

  lemma {:induction false} OtherStepKeeps(s: State, t: Tid, phase: Phase, u: Tid, c: Choice, i: nat, a: Address)
    requires Inv(s) && Enabled(s, u, c) && u != t && t in s.pc && Kept(s, t, i, a)
    requires InPhase(s.pc[t], phase) && (phase.Matching? ==> phase.i == i)
    ensures Kept(Step(s, u, c), t, i, a)
  {
    OthersHarmless(s, t, phase, i, u);
    PeerWriters(s, u, c, i);
    StepMovesOne(s, u, c);
    var s' := Step(s, u, c);
    forall v | v in s'.pc && v != t ensures !UsesSlot(s'.pc[v], i) {
      if v == u {
        if UsesSlot(s'.pc[u], i) {
          UseComesFrom(s, u, c, i);
        }
      } else {
        assert v in s.pc && s'.pc[v] == s.pc[v];
      }
    }
  }

  /** Along every path in the phase, the slot keeps its peer. */
  lemma {:induction false} KeptAlong(states: seq<State>, moves: seq<Move>, t: Tid, phase: Phase, i: nat,
                                     a: Address, k: nat)
    requires IsPath(states, moves) && StaysIn(states, t, phase) && k < |states|
    requires Inv(states[0]) && Kept(states[0], t, i, a) && (phase.Matching? ==> phase.i == i)
    ensures Inv(states[k]) && Kept(states[k], t, i, a)
  {
    if k > 0 {
      KeptAlong(states, moves, t, phase, i, a, k - 1);
      var s, m := states[k - 1], moves[k - 1];
      assert Moves(s, m, states[k]);
      assert t in s.pc && InPhase(s.pc[t], phase);
      StepKeepsInv(s, m.t, m.c);
      if m.t == t {
        OwnStepKeeps(s, t, phase, m.c, i, a);
      } else {
        OtherStepKeeps(s, t, phase, m.t, m.c, i, a);
      }
    }
  }

  lemma {:induction false} KeptWithin(s: State, t: Tid, phase: Phase, i: nat, a: Address, s': State)
    requires Inv(s) && Kept(s, t, i, a) && (phase.Matching? ==> phase.i == i) && Within(s, t, phase, s')
    ensures Kept(s', t, i, a)
  {
    var states: seq<State>, moves: seq<Move> :|
      IsPath(states, moves) && StaysIn(states, t, phase) && states[0] == s && states[|moves|] == s';
    KeptAlong(states, moves, t, phase, i, a, |moves|);
  }

  // ---------- Comparing peer names ----------

  // If thread t has come to use the slot, the slot has the peer
  ghost predicate RightPeer(s: State, t: Tid, p: Address, i: nat) {
    t in s.pc && s.pc[t].Use? ==> i < |s.peers| && s.peers[i] == Some(p)
  }

  // The user of the slot closes and unlocks it behind the comparison
  lemma {:induction false} ClosedBehind(s: State, t: Tid, p: Address, i: nat, u: Tid) returns (s3: State)
    requires Inv(s) && t in s.pc && s.pc[t] == Search(p, i) && i < |s.owner| && s.peers[i] == Some(p)
    requires u in s.pc && u != t && UsesSlot(s.pc[u], i)
    ensures Inv(s3) && Within(s, t, Matching(p, i), s3) && i < |s3.owner|
    ensures t in s3.pc && s3.pc[t] == TryMatch(p, i, false) && s3.owner[i] == None && s3.peers[i] == None
  {
    Start(s, t, Matching(p, i));
    assert ThreadOk(s, u);
    assert s.owner[i] == Some(u);
    var s1 := Go(s, t, Matching(p, i), s, Yes);
    assert s1.pc[t] == TryMatch(p, i, false) && s1.pc[u] == s.pc[u];
    var s2 := OtherGoes(s, t, Matching(p, i), s1, u, Close);
    assert s2.pc[u] == Unlock(i) && s2.peers[i] == None;
    s3 := OtherGoes(s, t, Matching(p, i), s2, u, Yes);
  }

  // The lock is free again, and the thread takes the slot without looking at its peer
  lemma {:induction false} LockedLate(s: State, t: Tid, p: Address, i: nat, s3: State) returns (s5: State)
    requires Within(s, t, Matching(p, i), s3) && Inv(s3) && i < |s3.owner| && t in s3.pc
    requires s3.pc[t] == TryMatch(p, i, false) && s3.owner[i] == None && s3.peers[i] == None
    ensures Within(s, t, Matching(p, i), s5) && Inv(s5) && i < |s5.owner|
    ensures t in s5.pc && s5.pc[t] == Take(p, i, false, false) && s5.peers[i] == None
  {
    var s4 := Go(s, t, Matching(p, i), s3, Yes);
    assert s4.pc[t] == Matched(p, i, false, false) && s4.peers[i] == None;
    s5 := Go(s, t, Matching(p, i), s4, Yes);
  }

  lemma {:induction false} TakenBlindly(s: State, t: Tid, p: Address, i: nat, s5: State) returns (s7: State)
    requires Within(s, t, Matching(p, i), s5) && Inv(s5) && i < |s5.owner| && t in s5.pc
    requires s5.pc[t] == Take(p, i, false, false) && s5.peers[i] == None
    ensures Within(s, t, Matching(p, i), s7) && !RightPeer(s7, t, p, i)
  {
    var s6 := Go(s, t, Matching(p, i), s5, Yes);
    assert s6.pc[t] == Leave(p, i, false, false) && s6.peers[i] == None;
    s7 := Go(s, t, Matching(p, i), s6, Yes);
  }

  /** From every reachable state in which a slot compares equal: the thread can come to use it only
      with the right peer if and only if no other thread is using the slot at that moment. */
  lemma {:induction false} RightPeerIff(s: State, t: Tid, p: Address, i: nat)
    requires Reachable(s) && t in s.pc && s.pc[t] == Search(p, i)
    requires i < |s.owner| && i < |s.peers| && s.peers[i] == Some(p)
    ensures (forall s' :: Within(s, t, Matching(p, i), s') ==> RightPeer(s', t, p, i)) <==> !UsedByOther(s, t, i)
  {
    ReachableInv(s);
    if UsedByOther(s, t, i) {
      var u :| u in s.pc && u != t && UsesSlot(s.pc[u], i);
      var s3 := ClosedBehind(s, t, p, i, u);
      var s5 := LockedLate(s, t, p, i, s3);
      var s7 := TakenBlindly(s, t, p, i, s5);
    } else {
      forall s' | Within(s, t, Matching(p, i), s') ensures RightPeer(s', t, p, i) {
        KeptWithin(s, t, Matching(p, i), i, p, s');
      }
    }
  }

  // ---------- The assertion on a full pool ----------

  // ReleaseConnection looks at slot i, and its assertion holds
  ghost predicate AssertionHolds(s: State, t: Tid, i: nat) {
    t in s.pc && s.pc[t].Probe? && s.pc[t].i == i ==> i < |s.peers| && s.peers[i].Some?
  }

  // The thread walks to slot i, whose peer is gone
  lemma {:induction false} WalkTo(s: State, t: Tid, s1: State, i: nat) returns (s': State)
    requires Within(s, t, Releasing, s1) && Inv(s1) && t in s1.pc && s1.pc[t].Probe? && s1.pc[t].i <= i < |s1.owner|
    requires s1.peers[i] == None
    ensures Within(s, t, Releasing, s') && !AssertionHolds(s', t, i)
    decreases i - s1.pc[t].i
  {
    var j := s1.pc[t].i;
    if j == i {
      s' := s1;
    } else {
      var s2 := Go(s, t, Releasing, s1, Yes);
      if s2.pc[t].Probed? {
        var s3 := Go(s, t, Releasing, s2, Yes);
        s' := WalkTo(s, t, s3, i);
      } else {
        s' := WalkTo(s, t, s2, i);
      }
    }
  }

  // The peer of slot i is gone, or goes now, and the thread finds out
  lemma {:induction false} FindsEmpty(s: State, t: Tid, i: nat) returns (s': State)
    requires Inv(s) && t in s.pc && s.pc[t].CheckFull? && i < |s.owner|
    requires s.peers[i] == None || UsedByOther(s, t, i)
    ensures Within(s, t, Releasing, s') && !AssertionHolds(s', t, i)
  {
    Start(s, t, Releasing);
    var s1 := s;
    if s.peers[i] != None {
      var u :| u in s.pc && u != t && UsesSlot(s.pc[u], i);
      s1 := OtherGoes(s, t, Releasing, s, u, Close);
    }
    var s2 := Go(s, t, Releasing, s1, Yes);
    s' := WalkTo(s, t, s2, i);
  }

  /** From every reachable state in which the counter is compared with the pool size: the assertion
      on slot i holds whenever the slot is looked at, in all interleavings, if and only if the slot
      has a peer at that moment and no other thread is using it. */
  lemma {:induction false} AssertionIff(s: State, t: Tid, i: nat)
    requires Reachable(s) && t in s.pc && s.pc[t].CheckFull? && i < |s.owner| && i < |s.peers|
    ensures (forall s' :: Within(s, t, Releasing, s') ==> AssertionHolds(s', t, i))
            <==> s.peers[i].Some? && !UsedByOther(s, t, i)
  {
    ReachableInv(s);
    if s.peers[i].Some? && !UsedByOther(s, t, i) {
      forall s' | Within(s, t, Releasing, s') ensures AssertionHolds(s', t, i) {
        KeptWithin(s, t, Releasing, i, s.peers[i].value, s');
      }
    } else {
      var s' := FindsEmpty(s, t, i);
    }
  }
}
