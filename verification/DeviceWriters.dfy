/**
 Who writes the device table: every change of an entry or of the connection list, at any step of
 any run, is made under the exclusive table lock or under the mutex of the one device it touches.
*/
module DeviceWriters {
  import opened RwLocks
  import opened DeviceTable
  import opened DeviceRuns

  /** Thread `t` may change table and list: it holds the exclusive table lock, or it stands at one of the
      two steps that change only the entry of the device whose mutex the thread owns. */
  ghost predicate MayChange(s: State, s': State, t: Tid) {
    && t in s.pcs
    && (|| IsAt(s.rw, t, Writing)
        || ((s.pcs[t].SUse? || s.pcs[t].CNull?) && OwnedBy(s, s.pcs[t].d, t) && s'.conns == s.conns
            && s'.table - {s.pcs[t].d} == s.table - {s.pcs[t].d}))
  }

  ghost predicate MadeByOwner(s: State, s': State) {
    exists t: Tid :: MayChange(s, s', t)
  }

  lemma ChangedByOwner(s: State, s': State, t: Tid, ch: Choice)
    requires MutexInv(s) && StepAct(s, s', t, ch) && (s'.table != s.table || s'.conns != s.conns)
    ensures MayChange(s, s', t)
  {
    hide NextPc, MutexesAfter, LiveAfter, EraseFirst, MutexInv, OwnedBy;
    OwnsWhatItSays(s, t);
  }

  lemma OwnsWhatItSays(s: State, t: Tid)
    requires MutexInv(s) && t in s.pcs && Owns(s.pcs[t]).Some?
    ensures OwnedBy(s, Owns(s.pcs[t]).value, t)
  {
  }

  lemma ChangedByAct(s: State, s': State, t: Tid, ch: Choice)
    requires InnerStep(s, s', t, ch) && (s'.table != s.table || s'.conns != s.conns)
    ensures StepAct(s, s', t, ch)
  {
    hide Acquires, LeaveStep, SpuriousWake, AfterRwLeave, AfterPoolLeave, CanAct, Act, RwHeld, PoolHeld, RwLeaves;
  }

  /** Every step of every run that changes an entry or the connection list is made by a thread that may. */
  lemma WritersHoldTheLock(r: seq<State>, i: nat)
    requires DeviceTable.Run(r) && i + 1 < |r| && (r[i + 1].table != r[i].table || r[i + 1].conns != r[i].conns)
    ensures MadeByOwner(r[i], r[i + 1])
  {
    hide InnerStep, StepStart, StepAct, LocksInv, MutexInv, HandlesInv, MayChange;
    DeviceRuns.RunKeepsInv(r, i);
    assert DeviceTable.StepAt(r, i);
    var s, s' := r[i], r[i + 1];
    if t: Tid, ch: Choice :| InnerStep(s, s', t, ch) {
      ChangedByAct(s, s', t, ch);
      ChangedByOwner(s, s', t, ch);
    } else {
      var t: Tid, call: Call :| StepStart(s, s', t, call);
      StartChangesNothing(s, s', t, call);
    }
  }

  lemma StartChangesNothing(s: State, s': State, t: Tid, call: Call)
    requires StepStart(s, s', t, call)
    ensures s'.table == s.table && s'.conns == s.conns
  {
  }
}
