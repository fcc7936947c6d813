/** What the locking protocol is for: a thread that opens a connection and is not disturbed gets one to
    its peer whenever some slot is not locked. */
module PoolOpens {
  import opened CText
  import opened PoolLocks

  // Only thread t has moved
  ghost predicate OnlyMoved(s: State, s': State, t: Tid) {
    && s'.pc.Keys == s.pc.Keys && |s'.owner| == |s.owner|
    && forall u :: u in s.pc && u != t ==> s'.pc[u] == s.pc[u]
  }

  // One move of thread t
  lemma {:induction false} MoveOn(s: State, t: Tid, c: Choice) returns (s': State)
    requires Reachable(s) && Inv(s) && Enabled(s, t, c)
    ensures s' == Step(s, t, c) && Reachable(s') && Inv(s') && OnlyMoved(s, s', t)
  {
    s' := Step(s, t, c);
    StepEffects(s, t, c);
    StepKeepsInv(s, t, c);
    ReachNext(s, Move(t, c), s');
  }

  // Thread t uses slot i, which has its peer
  ghost predicate HasOpened(s: State, t: Tid, p: Address, i: nat) {
    t in s.pc && s.pc[t] == Use(p, i, true, true) && i < |s.peers| && s.peers[i] == Some(p)
  }

  // The selected slot is taken, and the pool lock given back
  lemma {:induction false} TakeOpens(s: State, t: Tid, p: Address, i: nat) returns (s': State)
    requires Reachable(s) && Inv(s) && t in s.pc && s.pc[t] == Take(p, i, true, true)
    ensures Reachable(s') && OnlyMoved(s, s', t) && HasOpened(s', t, p, i)
  {
    var s1 := MoveOn(s, t, Yes);
    s' := MoveOn(s1, t, Yes);
    assert ThreadOk(s', t);
  }

  // ---------- Finding a connection ----------

  // Slot i has the peer and is not locked
  predicate Match(owner: seq<Option<Tid>>, peers: seq<Option<Address>>, i: int, p: Address) {
    0 <= i < |owner| && i < |peers| && peers[i] == Some(p) && owner[i] == None
  }

  ghost predicate NoMatch(s: State, p: Address, a: nat, b: nat) {
    forall k :: a <= k < b ==> !Match(s.owner, s.peers, k, p)
  }

  // Nothing but the position of thread t has changed
  ghost predicate SameSlots(s: State, s': State, t: Tid) {
    OnlyMoved(s, s', t) && s'.owner == s.owner && s'.peers == s.peers
  }

  // The search passes a slot that is locked or has another peer
  lemma {:induction false} SearchPasses(s: State, t: Tid, p: Address, j: nat) returns (s': State)
    requires Reachable(s) && Inv(s) && t in s.pc && s.pc[t] == Search(p, j) && j < |s.owner|
    requires !Match(s.owner, s.peers, j, p)
    ensures Reachable(s') && Inv(s') && SameSlots(s, s', t) && t in s'.pc && s'.pc[t] == Search(p, j + 1)
  {
    s' := MoveOn(s, t, Yes);
    if s.peers[j] == Some(p) {
      assert s.owner[j].Some?;
      s' := MoveOn(s', t, Yes);
    }
  }

  // The search stops at the first unlocked slot with the peer
  lemma {:induction false} SearchFinds(s: State, t: Tid, p: Address, j: nat, i: nat) returns (s': State)
    requires Reachable(s) && Inv(s) && t in s.pc && s.pc[t] == Search(p, j) && j <= i
    requires Match(s.owner, s.peers, i, p) && NoMatch(s, p, j, i)
    ensures Reachable(s') && OnlyMoved(s, s', t) && HasOpened(s', t, p, i)
    decreases i - j
  {
    if j == i {
      s' := FoundOpens(s, t, p, i);
    } else {
      var s1 := SearchPasses(s, t, p, j);
      s' := SearchFinds(s1, t, p, j + 1, i);
    }
  }

  lemma {:induction false} FoundOpens(s: State, t: Tid, p: Address, i: nat) returns (s': State)
    requires Reachable(s) && Inv(s) && t in s.pc && s.pc[t] == Search(p, i) && Match(s.owner, s.peers, i, p)
    ensures Reachable(s') && OnlyMoved(s, s', t) && HasOpened(s', t, p, i)
  {
    var s1 := MoveOn(s, t, Yes);
    var s2 := MoveOn(s1, t, Yes);
    var s3 := MoveOn(s2, t, Yes);
    s' := TakeOpens(s3, t, p, i);
  }

  // Without one it goes on to the counter
  lemma {:induction false} SearchMisses(s: State, t: Tid, p: Address, j: nat) returns (s': State)
    requires Reachable(s) && Inv(s) && t in s.pc && s.pc[t] == Search(p, j) && j <= |s.owner|
    requires NoMatch(s, p, j, |s.owner|)
    ensures Reachable(s') && Inv(s') && SameSlots(s, s', t) && t in s'.pc && s'.pc[t] == CheckFull(p)
    decreases |s.owner| - j
  {
    if j == |s.owner| {
      s' := MoveOn(s, t, Yes);
    } else {
      var s1 := SearchPasses(s, t, p, j);
      s' := SearchMisses(s1, t, p, j + 1);
    }
  }

  // ---------- Filling an empty slot ----------

  // Slot i is empty and not locked
  predicate Vacant(owner: seq<Option<Tid>>, peers: seq<Option<Address>>, i: int) {
    0 <= i < |owner| && i < |peers| && peers[i] == None && owner[i] == None
  }

  ghost predicate NoVacant(s: State, a: nat, b: nat) {
    forall k :: a <= k < b ==> !Vacant(s.owner, s.peers, k)
  }

  lemma {:induction false} AddPasses(s: State, t: Tid, p: Address, j: nat) returns (s': State)
    requires Reachable(s) && Inv(s) && t in s.pc && s.pc[t] == Add(p, j) && j < |s.owner|
    requires !Vacant(s.owner, s.peers, j)
    ensures Reachable(s') && Inv(s') && SameSlots(s, s', t) && t in s'.pc && s'.pc[t] == Add(p, j + 1)
  {
    s' := MoveOn(s, t, Yes);
    if s.peers[j] == None {
      assert s.owner[j].Some?;
      s' := MoveOn(s', t, Yes);
    }
  }

  // AddConnection fills the first empty unlocked slot
  lemma {:induction false} AddOpens(s: State, t: Tid, p: Address, j: nat, i: nat) returns (s': State)
    requires Reachable(s) && Inv(s) && t in s.pc && s.pc[t] == Add(p, j) && j <= i
    requires Vacant(s.owner, s.peers, i) && NoVacant(s, j, i)
    ensures Reachable(s') && OnlyMoved(s, s', t) && HasOpened(s', t, p, i)
    decreases i - j
  {
    if j == i {
      s' := FilledOpens(s, t, p, i);
    } else {
      var s1 := AddPasses(s, t, p, j);
      s' := AddOpens(s1, t, p, j + 1, i);
    }
  }

  lemma {:induction false} FilledOpens(s: State, t: Tid, p: Address, i: nat) returns (s': State)
    requires Reachable(s) && Inv(s) && t in s.pc && s.pc[t] == Add(p, i) && Vacant(s.owner, s.peers, i)
    ensures Reachable(s') && OnlyMoved(s, s', t) && HasOpened(s', t, p, i)
  {
    var s1 := MoveOn(s, t, Yes);
    var s2 := MoveOn(s1, t, Yes);
    var s3 := MoveOn(s2, t, Yes);
    s' := TakeOpens(s3, t, p, i);
  }

  lemma {:induction false} FirstVacant(s: State, i: nat) returns (f: nat)
    requires Vacant(s.owner, s.peers, i)
    ensures f <= i && Vacant(s.owner, s.peers, f) && NoVacant(s, 0, f)
  {
    f := 0;
    while !Vacant(s.owner, s.peers, f)
      invariant f <= i && NoVacant(s, 0, f)
      decreases i - f
    {
      f := f + 1;
    }
  }

  // ---------- Making room ----------

  /** Evicting a connection makes room: the thread that evicts comes to use a slot with its peer. */
  lemma {:induction false} EvictOpens(s: State, t: Tid) returns (s': State, f: nat)
    requires Reachable(s) && Inv(s) && t in s.pc && s.pc[t].Evict?
    ensures Reachable(s') && OnlyMoved(s, s', t) && HasOpened(s', t, s.pc[t].peer, f)
  {
    assert ThreadOk(s, t);
    var p, i := s.pc[t].peer, s.pc[t].i;
    var s1 := MoveOn(s, t, Yes);
    assert Vacant(s1.owner, s1.peers, i);
    f := FirstVacant(s1, i);
    s' := AddOpens(s1, t, p, 0, f);
  }

  // Looking through a full pool ends with an unlocked slot, if there is one
  lemma {:induction false} ProbeOpens(s: State, t: Tid, i: nat) returns (s': State, f: nat)
    requires Reachable(s) && Inv(s) && t in s.pc && s.pc[t].Probe? && i < |s.owner|
    requires s.pc[t].best.Some? || (s.pc[t].i <= i && s.owner[i] == None)
    ensures Reachable(s') && OnlyMoved(s, s', t) && HasOpened(s', t, s.pc[t].peer, f)
    decreases |s.owner| - s.pc[t].i
  {
    var j := s.pc[t].i;
    var s1 := MoveOn(s, t, Yes);
    if j == |s.owner| {
      s', f := EvictOpens(s1, t);
    } else if s.owner[j].None? {
      var s2 := MoveOn(s1, t, Yes);
      s', f := ProbeOpens(s2, t, i);
    } else {
      s', f := ProbeOpens(s1, t, i);
    }
  }

  /** When every slot is locked, looking through the pool ends without a connection: the pool lock is
      given back, and the slots are left as they are. */
  lemma {:induction false} AllLockedFails(s: State, t: Tid, p: Address, j: nat) returns (s': State)
    requires Reachable(s) && Inv(s) && t in s.pc && s.pc[t] == Probe(p, j, None) && j <= |s.owner|
    requires forall k :: j <= k < |s.owner| ==> s.owner[k].Some?
    ensures Reachable(s') && SameSlots(s, s', t) && t in s'.pc && s'.pc[t] == Idle && s'.pool == None
    decreases |s.owner| - j
  {
    var s1 := MoveOn(s, t, Yes);
    if j == |s.owner| {
      s' := MoveOn(s1, t, Yes);
    } else {
      s' := AllLockedFails(s1, t, p, j + 1);
    }
  }

  // ---------- Opening ----------

  lemma {:induction false} FirstMatch(s: State, p: Address) returns (i: int)
    ensures -1 <= i < |s.owner| && (i >= 0 ==> Match(s.owner, s.peers, i, p) && NoMatch(s, p, 0, i))
    ensures i < 0 ==> NoMatch(s, p, 0, |s.owner|)
  {
    i := 0;
    while i < |s.owner| && !Match(s.owner, s.peers, i, p)
      invariant 0 <= i <= |s.owner| && NoMatch(s, p, 0, i)
    {
      i := i + 1;
    }
    if i == |s.owner| {
      i := -1;
    }
  }

  /** From every reachable state in which a thread waits for a free pool lock and some slot is not
      locked, the thread alone can come to use a slot that has its peer: the first unlocked one with
      that peer if there is one. */
  lemma {:induction false} OpensAlone(s: State, t: Tid, p: Address, i: nat) returns (s': State, f: nat)
    requires Reachable(s) && t in s.pc && s.pc[t] == LockPool(p) && s.pool == None
    requires i < |s.owner| && s.owner[i] == None
    ensures Reachable(s') && OnlyMoved(s, s', t) && HasOpened(s', t, p, f)
    ensures NoMatch(s, p, 0, |s.owner|) || (Match(s.owner, s.peers, f, p) && NoMatch(s, p, 0, f))
  {
    ReachableInv(s);
    var s1 := MoveOn(s, t, Yes);
    assert SameSlots(s, s1, t) && s1.pc[t] == Search(p, 0);
    var m := FirstMatch(s, p);
    if m >= 0 {
      f := m;
      s' := SearchFinds(s1, t, p, 0, f);
    } else {
      var s2 := SearchMisses(s1, t, p, 0);
      s', f := WithoutMatch(s2, t, i);
    }
  }

  lemma {:induction false} WithoutMatch(s: State, t: Tid, i: nat) returns (s': State, f: nat)
    requires Reachable(s) && Inv(s) && t in s.pc && s.pc[t].CheckFull? && i < |s.owner| && s.owner[i] == None
    ensures Reachable(s') && OnlyMoved(s, s', t) && HasOpened(s', t, s.pc[t].peer, f)
  {
    if Vacant(s.owner, s.peers, i) {
      var s1 := MoveOn(s, t, No);
      f := FirstVacant(s1, i);
      s' := AddOpens(s1, t, s.pc[t].peer, 0, f);
    } else {
      var s1 := MoveOn(s, t, Yes);
      s', f := ProbeOpens(s1, t, i);
    }
  }
}
