/**
 Deadlock freedom of the device table, with the real read-write locks underneath.

 A step advances a call if it performs an operation, releases a lock, joins a lock's queue or
 acquires a lock. Spurious wakeups and re-checks that fall asleep again do not count. Device
 creation and device requests are assumed to return.
*/
module DeviceProgress {
  import opened Words
  import opened RwLocks
  import opened RwLockRuns
  import opened DeviceTable
  import opened DeviceRuns

  /** One acquisition step that enqueues or acquires. */
  ghost predicate GetsCloser(l: Lock, l': Lock, t: Tid) {
    IsAt(l, t, Out) || IsAt(l', t, Reading) || IsAt(l', t, Writing)
  }

  ghost predicate Advances(s: State, s': State, t: Tid, ch: Choice) {
    || StepAct(s, s', t, ch)
    || StepLeaveRw(s, s', t, ch)
    || StepLeavePool(s, s', t, ch)
    || (StepAcquireRw(s, s', t) && GetsCloser(s.rw, s'.rw, t))
    || (StepAcquirePool(s, s', t) && GetsCloser(s.poolRw, s'.poolRw, t))
  }

  ghost predicate CanAdvance(s: State, t: Tid) {
    exists s', ch :: Advances(s, s', t, ch)
  }

  /** A holder can always leave: `notify_one` finds a sleeper or wakes nobody. */
  lemma LeaveEnabled(l: Lock, t: Tid) returns (l': Lock, woken: Option<Tid>)
    requires IsAt(l, t, Reading) || IsAt(l, t, Writing)
    ensures LeaveStep(l, l', t, woken)
  {
    var out := l.pos[t := Out];
    var sleepers := Positioned(out, {WriteAsleep});
    woken := None;
    if sleepers != {} {
      var w :| w in sleepers;
      woken := Some(w);
    }
    assert LegalWake(out, woken);
    l' := if IsAt(l, t, Reading) then ReadLeave(l, t, woken) else WriteLeave(l, t, woken);
  }

  lemma OperationAdvances(s: State, t: Tid)
    requires CanAct(s, t)
    ensures CanAdvance(s, t)
  {
    hide CanAct, Act;
    assert Advances(s, Act(s, t, Choice(true, None)), t, Choice(true, None));
  }

  /** A thread whose locks are in place, and that is not waiting for a device mutex, can go on. */
  lemma UnblockedAdvances(s: State, t: Tid)
    requires LocksInv(s) && t in s.pcs && !s.pcs[t].Idle? && !s.pcs[t].MTake?
    requires InPlace(s.rw, t, RwNeed(s.pcs[t])) && InPlace(s.poolRw, t, PoolNeed(s.pcs[t]))
    ensures CanAdvance(s, t)
  {
    hide LocksInv, LeaveStep, Act, AfterRwLeave, AfterPoolLeave;
    var pc := s.pcs[t];
    if RwLeaves(pc) {
      var l', woken := LeaveEnabled(s.rw, t);
      var s' := s.(rw := l', pcs := s.pcs[t := AfterRwLeave(pc)]);
      assert Advances(s, s', t, Choice(true, woken));
    } else if PoolHeld(pc) {
      var l', woken := LeaveEnabled(s.poolRw, t);
      var s' := s.(poolRw := l', pcs := s.pcs[t := AfterPoolLeave(pc)]);
      assert Advances(s, s', t, Choice(true, woken));
    } else {
      OperationAdvances(s, t);
    }
  }

  /** The two read-write locks are never wanted together, and never while waiting for a mutex:
      whoever holds or wants one of them wants nothing else. */
  lemma LocksAreLeaves(pc: Pc)
    ensures RwNeed(pc) != Nothing ==> PoolNeed(pc) == Nothing && !pc.MTake? && !pc.Idle?
    ensures PoolNeed(pc) != Nothing ==> RwNeed(pc) == Nothing && !pc.MTake? && !pc.Idle?
    ensures pc.MTake? ==> RwNeed(pc) == Nothing && PoolNeed(pc) == Nothing && Owns(pc) == None
  {
  }

  lemma StandsOutside(s: State, t: Tid)
    requires LocksInv(s) && MutexInv(s) && t in s.pcs
    ensures s.rw.pos[t] == Out || s.poolRw.pos[t] == Out
    ensures s.pcs[t].MTake? ==>
      s.rw.pos[t] == Out && s.poolRw.pos[t] == Out && forall d: Dev :: !OwnedBy(s, d, t)
  {
    hide RwLocks.Inv;
    LocksAreLeaves(s.pcs[t]);
  }

  /** In every reachable state: no thread is in, or waits for, both read-write locks; and a thread
      that waits for a device mutex is outside of both and owns no mutex. */
  lemma LocksAreTakenLast(r: seq<State>, i: nat, t: Tid)
    requires DeviceTable.Run(r) && i < |r| && t in r[i].pcs
    ensures t in r[i].rw.pos && t in r[i].poolRw.pos
    ensures r[i].rw.pos[t] == Out || r[i].poolRw.pos[t] == Out
    ensures r[i].pcs[t].MTake? ==>
      r[i].rw.pos[t] == Out && r[i].poolRw.pos[t] == Out && forall d: Dev :: !OwnedBy(r[i], d, t)
  {
    hide DeviceTable.Run, HandlesInv, MutexInv;
    DeviceRuns.RunKeepsInv(r, i);
    StandsOutside(r[i], t);
  }

  lemma RwHolderAdvances(s: State, t: Tid)
    requires LocksInv(s) && t in s.pcs && s.rw.pos[t] in {Reading, Writing}
    ensures CanAdvance(s, t)
  {
    LocksAreLeaves(s.pcs[t]);
    UnblockedAdvances(s, t);
  }

  lemma PoolHolderAdvances(s: State, t: Tid)
    requires LocksInv(s) && t in s.pcs && s.poolRw.pos[t] in {Reading, Writing}
    ensures CanAdvance(s, t)
  {
    LocksAreLeaves(s.pcs[t]);
    UnblockedAdvances(s, t);
  }

  /** If a thread waits for a lock, then a holder exists, or somebody can enqueue or acquire. */
  lemma LockMoves(l: Lock, t: Tid, need: Need) returns (u: Tid, l': Lock)
    requires RwLocks.Inv(l) && t in l.pos && need != Nothing && PosFits(need, false, l.pos[t]) && !InPlace(l, t, need)
    ensures u in l.pos
    ensures || l.pos[u] in {Reading, Writing}
            || (u == t && Acquires(l, l', t, need) && l.pos[t] == Out)
            || (l.pos[u] == ReadWoken && l' == ReadRecheck(l, u) && IsAt(l', u, Reading))
            || (l.pos[u] == WriteWoken && l' == WriteRecheck(l, u) && IsAt(l', u, Writing))
  {
    l' := l;
    if holder :| holder in l.At({Reading, Writing}) {
      u := holder;
    } else if l.pos[t] == Out {
      u := t;
      l' := if need == Shared then ReadEnter(l, t) else WriteEnter(l, t);
    } else {
      assert l.At({Reading}) <= l.At({Reading, Writing}) && l.At({Writing}) <= l.At({Reading, Writing});
      u := SomeWaiterCanAcquire(l, t);
      l' := if l.pos[u] == ReadWoken then ReadRecheck(l, u) else WriteRecheck(l, u);
    }
  }

  lemma RwWaiterUnblocks(s: State, t: Tid) returns (u: Tid)
    requires LocksInv(s) && t in s.pcs && RwNeed(s.pcs[t]) != Nothing && !InPlace(s.rw, t, RwNeed(s.pcs[t]))
    ensures CanAdvance(s, u)
  {
    hide RwLocks.Inv, ReadRecheck, WriteRecheck, ReadEnter, WriteEnter;
    var l';
    u, l' := LockMoves(s.rw, t, RwNeed(s.pcs[t]));
    if s.rw.pos[u] in {Reading, Writing} {
      RwHolderAdvances(s, u);
    } else {
      assert Advances(s, s.(rw := l'), u, Choice(true, None));
    }
  }

  lemma PoolWaiterUnblocks(s: State, t: Tid) returns (u: Tid)
    requires LocksInv(s) && t in s.pcs && PoolNeed(s.pcs[t]) != Nothing && !InPlace(s.poolRw, t, PoolNeed(s.pcs[t]))
    ensures CanAdvance(s, u)
  {
    hide RwLocks.Inv, ReadRecheck, WriteRecheck, ReadEnter, WriteEnter;
    var l';
    u, l' := LockMoves(s.poolRw, t, PoolNeed(s.pcs[t]));
    if s.poolRw.pos[u] in {Reading, Writing} {
      PoolHolderAdvances(s, u);
    } else {
      assert Advances(s, s.(poolRw := l'), u, Choice(true, None));
    }
  }

  /** Any unfinished thread that is not waiting for a device mutex leads to a thread that can go on. */
  lemma NotAtMutexUnblocks(s: State, t: Tid) returns (u: Tid)
    requires LocksInv(s) && t in s.pcs && !s.pcs[t].Idle? && !s.pcs[t].MTake?
    ensures CanAdvance(s, u)
  {
    hide LocksInv, CanAdvance;
    if RwNeed(s.pcs[t]) != Nothing && !InPlace(s.rw, t, RwNeed(s.pcs[t])) {
      u := RwWaiterUnblocks(s, t);
    } else if PoolNeed(s.pcs[t]) != Nothing && !InPlace(s.poolRw, t, PoolNeed(s.pcs[t])) {
      u := PoolWaiterUnblocks(s, t);
    } else {
      u := t;
      UnblockedAdvances(s, t);
    }
  }

  lemma UnfinishedUnblocks(s: State, t: Tid) returns (u: Tid)
    requires DeviceTable.Inv(s) && t in s.pcs && !s.pcs[t].Idle?
    ensures CanAdvance(s, u)
  {
    hide LocksInv, HandlesInv, CanAdvance;
    if s.pcs[t].MTake? {
      var d := s.pcs[t].d;
      if s.mutexes[d] == None {
        u := t;
        OperationAdvances(s, t);
      } else {
        // The owner of the mutex holds it, so it is not itself waiting for one.
        var owner := s.mutexes[d].value;
        LocksAreLeaves(s.pcs[owner]);
        u := NotAtMutexUnblocks(s, owner);
      }
    } else {
      u := NotAtMutexUnblocks(s, t);
    }
  }

  /** No deadlock: in every reachable state with an unfinished call, some thread can advance. */
  lemma NoDeadlock(r: seq<State>, i: nat, t: Tid)
    requires DeviceTable.Run(r) && i < |r| && t in r[i].pcs && !r[i].pcs[t].Idle?
    ensures exists u :: CanAdvance(r[i], u)
  {
    hide DeviceTable.Run, DeviceTable.Inv, CanAdvance;
    DeviceRuns.RunKeepsInv(r, i);
    var u := UnfinishedUnblocks(r[i], t);
  }
}
