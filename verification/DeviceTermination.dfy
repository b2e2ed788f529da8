/**
 Calls on the device table can always be finished: every step that advances a call lowers a weight
 that is summed over all threads, and as long as a call is unfinished there is such a step.
*/
module DeviceTermination {
  import opened Words
  import opened RwLocks
  import opened DeviceTable
  import opened DeviceProgress
  import opened DeviceSolo

  // ---------------------------------------------------------------- the weight of a thread

  /** How far a thread is from having the lock it needs: outside, waiting, or there. */
  function Distance(l: Lock, t: Tid, need: Need): nat {
    if InPlace(l, t, need) then 0 else if IsAt(l, t, Out) then 2 else 1
  }

  function Weight(s: State, t: Tid): nat
    requires t in s.pcs
  {
    var pc := s.pcs[t];
    3 * Rank(pc) + Distance(s.rw, t, RwNeed(pc)) + Distance(s.poolRw, t, PoolNeed(pc))
  }

  lemma AcquireGetsCloser(l: Lock, l': Lock, t: Tid, need: Need)
    requires Acquires(l, l', t, need) && GetsCloser(l, l', t)
    ensures Distance(l', t, need) < Distance(l, t, need)
  {
  }

  lemma WakingKeepsDistance(l: Lock, l': Lock, t: Tid, u: Tid, need: Need)
    requires OthersKept(l, l', t) && u != t && u in l.pos
    ensures Distance(l', u, need) == Distance(l, u, need)
  {
    assert l'.pos[u] == l'.pos[u];
  }

  lemma NeedsOne(pc: Pc)
    ensures RwNeed(pc) == Nothing || PoolNeed(pc) == Nothing
  {
  }

  /** A step that advances thread `t` makes it lighter. */
  lemma AdvancingIsLighter(s: State, s': State, t: Tid, ch: Choice)
    requires Advances(s, s', t, ch) && t in s.pcs
    ensures t in s'.pcs && Weight(s', t) < Weight(s, t)
  {
    hide Rank, RwNeed, PoolNeed, NextPc, AfterRwLeave, AfterPoolLeave, Acquires, LeaveStep, TableAfter, ConnsAfter,
         MutexesAfter, LiveAfter, InPlace, RwLeaves, PoolHeld, RwHeld, GetsCloser;
    var pc := s.pcs[t];
    NeedsOne(s'.pcs[t]);
    NothingIsInPlace(s'.rw, t);
    NothingIsInPlace(s'.poolRw, t);
    if StepAct(s, s', t, ch) {
      ActLowersRank(s, pc, ch);
    } else if StepLeaveRw(s, s', t, ch) || StepLeavePool(s, s', t, ch) {
      LeavesLowerRank(pc);
    } else if StepAcquireRw(s, s', t) && GetsCloser(s.rw, s'.rw, t) {
      AcquireGetsCloser(s.rw, s'.rw, t, RwNeed(pc));
    } else {
      AcquireGetsCloser(s.poolRw, s'.poolRw, t, PoolNeed(pc));
    }
  }

  lemma NothingIsInPlace(l: Lock, t: Tid)
    ensures InPlace(l, t, Nothing)
  {
  }

  /** ... and leaves the weight of the others as it is. */
  lemma AdvancingKeepsOthers(s: State, s': State, t: Tid, ch: Choice, u: Tid)
    requires LocksInv(s) && Advances(s, s', t, ch) && u in s.pcs && u != t
    ensures u in s'.pcs && Weight(s', u) == Weight(s, u)
  {
    hide Rank, RwNeed, PoolNeed, NextPc, AfterRwLeave, AfterPoolLeave, Acquires, LeaveStep, InPlace, Distance, Act;
    AdvancingMovesLocks(s, s', t, ch);
    WakingKeepsDistance(s.rw, s'.rw, t, u, RwNeed(s.pcs[u]));
    WakingKeepsDistance(s.poolRw, s'.poolRw, t, u, PoolNeed(s.pcs[u]));
  }

  lemma AdvancingMovesLocks(s: State, s': State, t: Tid, ch: Choice)
    requires Advances(s, s', t, ch)
    ensures t in s.pcs && s'.pcs.Keys == s.pcs.Keys && (forall u :: u in s.pcs && u != t ==> s'.pcs[u] == s.pcs[u])
    ensures OthersKept(s.rw, s'.rw, t) && OthersKept(s.poolRw, s'.poolRw, t)
  {
    hide NextPc, AfterRwLeave, AfterPoolLeave, RwLeaves, PoolHeld, RwHeld, InPlace, GetsCloser, Act;
    SameLock(s.rw, t);
    SameLock(s.poolRw, t);
    if StepAct(s, s', t, ch) {
      ActShape(s, t, ch);
      ActKeepsTheLocks(s, t, ch);
    } else if StepLeaveRw(s, s', t, ch) {
      StepKeepsOthers(s.rw, s'.rw, t, ch.woken);
    } else if StepLeavePool(s, s', t, ch) {
      StepKeepsOthers(s.poolRw, s'.poolRw, t, ch.woken);
    } else if StepAcquireRw(s, s', t) {
      AcquireFits(s.rw, s'.rw, t, RwNeed(s.pcs[t]));
      StepKeepsOthers(s.rw, s'.rw, t, None);
    } else {
      AcquireFits(s.poolRw, s'.poolRw, t, PoolNeed(s.pcs[t]));
      StepKeepsOthers(s.poolRw, s'.poolRw, t, None);
    }
  }

  lemma ActKeepsTheLocks(s: State, t: Tid, ch: Choice)
    requires CanAct(s, t)
    ensures Act(s, t, ch).rw == s.rw && Act(s, t, ch).poolRw == s.poolRw && t in s.pcs
  {
  }

  // ---------------------------------------------------------------- the weight of a state

  ghost function Total(s: State, threads: set<Tid>): nat
    requires threads <= s.pcs.Keys
    decreases |threads|
  {
    if threads == {} then 0
    else
      var t :| t in threads;
      Weight(s, t) + Total(s, threads - {t})
  }

  /** The sum does not depend on the order of the threads. */
  lemma {:induction false} TotalTakes(s: State, threads: set<Tid>, t: Tid)
    requires threads <= s.pcs.Keys && t in threads
    ensures Total(s, threads) == Weight(s, t) + Total(s, threads - {t})
    decreases |threads|
  {
    hide Weight;
    var u :| u in threads && Total(s, threads) == Weight(s, u) + Total(s, threads - {u});
    if u != t {
      TotalTakes(s, threads - {u}, t);
      TotalTakes(s, threads - {t}, u);
      assert threads - {u} - {t} == threads - {t} - {u};
    }
  }

  lemma {:induction false} SameTotal(s: State, s': State, threads: set<Tid>)
    requires threads <= s.pcs.Keys && threads <= s'.pcs.Keys
    requires forall u :: u in threads ==> Weight(s', u) == Weight(s, u)
    ensures Total(s', threads) == Total(s, threads)
    decreases |threads|
  {
    hide Weight;
    if threads != {} {
      var t :| t in threads;
      TotalTakes(s, threads, t);
      TotalTakes(s', threads, t);
      SameTotal(s, s', threads - {t});
    }
  }

  ghost function Load(s: State): nat {
    Total(s, s.pcs.Keys)
  }

  /** Every advancing step makes the state lighter. */
  lemma AdvancingLowersLoad(s: State, s': State, t: Tid, ch: Choice)
    requires LocksInv(s) && Advances(s, s', t, ch)
    ensures Load(s') < Load(s)
  {
    hide Advances, Weight, Total, LocksInv;
    AdvancingMovesLocks(s, s', t, ch);
    AdvancingIsLighter(s, s', t, ch);
    forall u | u in s.pcs.Keys - {t} ensures Weight(s', u) == Weight(s, u) {
      AdvancingKeepsOthers(s, s', t, ch, u);
    }
    TotalTakes(s, s.pcs.Keys, t);
    TotalTakes(s', s'.pcs.Keys, t);
    SameTotal(s, s', s.pcs.Keys - {t});
  }

  // ---------------------------------------------------------------- main results

  ghost predicate SomeAdvance(s: State, s': State) {
    exists t: Tid, ch: Choice :: Advances(s, s', t, ch)
  }

  ghost predicate AdvanceAt(q: seq<State>, i: nat)
    requires i + 1 < |q|
  {
    SomeAdvance(q[i], q[i + 1])
  }

  ghost predicate AllAdvance(q: seq<State>) {
    |q| > 0 && forall i: nat :: i + 1 < |q| ==> AdvanceAt(q, i)
  }

  predicate AllIdle(s: State) {
    forall t :: t in s.pcs ==> s.pcs[t].Idle?
  }

  lemma AdvanceIsStep(s: State, s': State, t: Tid, ch: Choice)
    requires Advances(s, s', t, ch)
    ensures InnerStep(s, s', t, ch)
  {
  }

  lemma AdvanceKeepsInv(s: State, s': State, t: Tid, ch: Choice)
    requires DeviceTable.Inv(s) && Advances(s, s', t, ch)
    ensures DeviceTable.Inv(s')
  {
    hide Advances, InnerStep, DeviceTable.Inv;
    AdvanceIsStep(s, s', t, ch);
    InnerStepKeepsInv(s, s', t, ch);
  }

  /** No interleaving of advancing steps is longer than the load of the state it begins in. */
  lemma {:induction false} AdvancingEnds(q: seq<State>)
    requires AllAdvance(q) && DeviceTable.Inv(q[0])
    ensures |q| - 1 <= Load(q[0])
    decreases |q|
  {
    hide Advances, Load, LocksInv, MutexInv, HandlesInv;
    if |q| > 1 {
      assert AdvanceAt(q, 0);
      var t: Tid, ch: Choice :| Advances(q[0], q[1], t, ch);
      AdvancingLowersLoad(q[0], q[1], t, ch);
      AdvanceKeepsInv(q[0], q[1], t, ch);
      forall i: nat | i + 1 < |q[1..]| ensures AdvanceAt(q[1..], i) {
        assert AdvanceAt(q, i + 1);
      }
      AdvancingEnds(q[1..]);
    }
  }

  /** From a state that is in order, the calls under way can be finished. */
  lemma {:induction false} CallsCanFinish(s: State) returns (q: seq<State>)
    requires DeviceTable.Inv(s)
    ensures AllAdvance(q) && q[0] == s && AllIdle(q[|q| - 1])
    decreases Load(s)
  {
    hide Advances, Load, LocksInv, MutexInv, HandlesInv;
    if AllIdle(s) {
      q := [s];
    } else {
      var t: Tid :| t in s.pcs && !s.pcs[t].Idle?;
      var u := UnfinishedUnblocks(s, t);
      var s': State, ch: Choice :| Advances(s, s', u, ch);
      AdvancingLowersLoad(s, s', u, ch);
      AdvanceKeepsInv(s, s', u, ch);
      var rest := CallsCanFinish(s');
      q := [s] + rest;
      forall i: nat | i + 1 < |q| ensures AdvanceAt(q, i) {
        if i == 0 {
          assert q[0] == s && q[1] == s' && SomeAdvance(s, s');
        } else {
          assert AdvanceAt(rest, i - 1) && q[i] == rest[i - 1] && q[i + 1] == rest[i];
        }
      }
    }
  }

  /** No run is ever stuck: whatever has happened, it can be continued until every call has returned. */
  lemma EveryRunCanFinish(r: seq<State>, i: nat) returns (q: seq<State>)
    requires DeviceTable.Run(r) && i < |r|
    ensures |q| > 0 && q[0] == r[i] && AllIdle(q[|q| - 1]) && DeviceTable.Run(r[..i] + q)
  {
    hide Advances, InnerStep, DeviceTable.Inv, Initial;
    DeviceRuns.RunKeepsInv(r, i);
    q := CallsCanFinish(r[i]);
    var w := r[..i] + q;
    assert w[0] == r[0];
    forall j: nat | j + 1 < |w| ensures DeviceTable.StepAt(w, j) {
      if j < i {
        assert DeviceTable.StepAt(r, j);
        assert w[j] == r[j] && w[j + 1] == r[j + 1];
      } else {
        assert AdvanceAt(q, j - i);
        var t: Tid, ch: Choice :| Advances(q[j - i], q[j - i + 1], t, ch);
        AdvanceIsStep(w[j], w[j + 1], t, ch);
      }
    }
  }
}
