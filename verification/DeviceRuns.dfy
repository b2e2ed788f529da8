/** What holds in every state of every run of the device table, for any interleaving of its threads. */
module DeviceRuns {
  import opened Words
  import opened RwLocks
  import opened RwLockRuns
  import opened DeviceTable

  /** Every state of every run, over all interleavings of any number of calls, is in order. */
  lemma {:induction false} RunKeepsInv(r: seq<State>, i: nat)
    requires DeviceTable.Run(r) && i < |r|
    ensures DeviceTable.Inv(r[i])
  {
    hide DeviceTable.Inv, DeviceTable.Next;
    if i == 0 {
      var threads: set<Tid> :| |threads| < 0x1_0000_0000 && r[0] == Initial(threads);
      InitialInv(threads);
    } else {
      RunKeepsInv(r, i - 1);
      assert DeviceTable.StepAt(r, i - 1);
      NextKeepsInv(r[i - 1], r[i]);
    }
  }

  // ---------------------------------------------------------------- main results: handles

  /** A live handle is stored in the table, or its creator is about to store it. */
  lemma LiveIsStoredOrPlaced(s: State, h: Handle, d: Dev)
    requires MutexInv(s) && HandlesInv(s) && IsLive(s, h, d)
    ensures EntryIs(s, d, Some(h)) || (EntryIs(s, d, None) && Placing(s, h, d))
  {
    assert DeviceInv(s, d);
    if Placing(s, h, d) {
      ViewOf(s, s.mutexes[d].value);
    }
  }

  /** Each device has at most one live handle. */
  lemma OneLiveHandlePerDevice(r: seq<State>, i: nat, h: Handle, h': Handle, d: Dev)
    requires DeviceTable.Run(r) && i < |r| && IsLive(r[i], h, d) && IsLive(r[i], h', d)
    ensures h == h'
  {
    hide DeviceTable.Run, LocksInv, MutexInv, HandlesInv;
    RunKeepsInv(r, i);
    LiveIsStoredOrPlaced(r[i], h, d);
    LiveIsStoredOrPlaced(r[i], h', d);
  }

  /** Every live handle is in its device's table entry, or its creator still owns the device mutex. */
  lemma LiveHandlesAreStored(r: seq<State>, i: nat, h: Handle, d: Dev)
    requires DeviceTable.Run(r) && i < |r| && IsLive(r[i], h, d)
    ensures EntryIs(r[i], d, Some(h)) || (EntryIs(r[i], d, None) && Placing(r[i], h, d))
  {
    hide DeviceTable.Run, LocksInv, MutexInv, HandlesInv;
    RunKeepsInv(r, i);
    LiveIsStoredOrPlaced(r[i], h, d);
  }

  /** The handle that a thread talks to, or is about to destroy. */
  function Uses(s: State, t: Tid): Option<Handle> {
    if t !in s.pcs then None
    else match s.pcs[t]
      case SIo(_, _, h) => Some(h)
      case CKill(_, d) => Entry(s.table, d)
      case _ => None
  }

  lemma UsedIsLive(s: State, t: Tid)
    requires DeviceTable.Inv(s) && Uses(s, t).Some?
    ensures IsLive(s, Uses(s, t).value, s.pcs[t].d)
  {
    var pc := s.pcs[t];
    assert OwnerView(s, pc);
    if pc.CKill? {
      assert OwnedBy(s, pc.d, t) && DeviceInv(s, pc.d);
    }
  }

  /** The handle a thread uses is live, and belongs to the thread's device, during all of the use. */
  lemma HandlesInUseAreLive(r: seq<State>, i: nat, t: Tid)
    requires DeviceTable.Run(r) && i < |r| && Uses(r[i], t).Some?
    ensures IsLive(r[i], Uses(r[i], t).value, r[i].pcs[t].d)
  {
    RunKeepsInv(r, i);
    UsedIsLive(r[i], t);
  }

  lemma InnerStepDestroyed(s: State, s': State, t: Tid, ch: Choice, h: Handle)
    requires InnerStep(s, s', t, ch) && h < s.issued && h !in s.live
    ensures h < s'.issued && h !in s'.live
  {
    hide CanAct, NextPc, TableAfter, ConnsAfter, MutexesAfter, Acquires, LeaveStep, SpuriousWake, AfterRwLeave,
         AfterPoolLeave;
  }

  lemma StaysDestroyedOnce(s: State, s': State, h: Handle)
    requires DeviceTable.Next(s, s') && h < s.issued && h !in s.live
    ensures h < s'.issued && h !in s'.live
  {
    hide InnerStep;
    if t, ch :| InnerStep(s, s', t, ch) {
      InnerStepDestroyed(s, s', t, ch, h);
    }
  }

  lemma {:induction false} StaysDestroyed(r: seq<State>, i: nat, j: nat, h: Handle)
    requires DeviceTable.Run(r) && i <= j < |r| && h < r[i].issued && h !in r[i].live
    ensures h < r[j].issued && h !in r[j].live
  {
    hide DeviceTable.Next, Initial;
    if i < j {
      StaysDestroyed(r, i, j - 1, h);
      assert DeviceTable.StepAt(r, j - 1);
      StaysDestroyedOnce(r[j - 1], r[j], h);
    }
  }

  /** A destroyed handle stays destroyed, and no thread ever uses it again. */
  lemma NoUseAfterDestroy(r: seq<State>, i: nat, j: nat, h: Handle, t: Tid)
    requires DeviceTable.Run(r) && i <= j < |r| && h < r[i].issued && h !in r[i].live
    ensures h !in r[j].live && Uses(r[j], t) != Some(h)
  {
    StaysDestroyed(r, i, j, h);
    if Uses(r[j], t).Some? {
      HandlesInUseAreLive(r, j, t);
    }
  }

  /** Two threads never work on the same device at once. */
  lemma DeviceMutexExcludes(r: seq<State>, i: nat, t: Tid, u: Tid)
    requires DeviceTable.Run(r) && i < |r| && t in r[i].pcs && u in r[i].pcs && t != u
    requires Owns(r[i].pcs[t]).Some?
    ensures Owns(r[i].pcs[t]) != Owns(r[i].pcs[u])
  {
    hide DeviceTable.Run, LocksInv, MutexInv, HandlesInv;
    RunKeepsInv(r, i);
    OwnersDiffer(r[i], u, t);
  }

  /** While one thread changes the table or the connection list under the exclusive lock, no other
      thread is inside a section of the table lock. */
  lemma TableLockExcludes(r: seq<State>, i: nat, t: Tid, u: Tid)
    requires DeviceTable.Run(r) && i < |r| && t in r[i].pcs && u in r[i].pcs && t != u
    requires RwNeed(r[i].pcs[t]) == Exclusive && InPlace(r[i].rw, t, Exclusive)
    ensures !RwHeld(r[i].pcs[u])
  {
    hide DeviceTable.Run, MutexInv, HandlesInv, RwLocks.Inv;
    RunKeepsInv(r, i);
    MutualExclusion(r[i].rw, t, u);
  }
}
