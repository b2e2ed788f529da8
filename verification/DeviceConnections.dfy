/**
 What holds between open devices and registered connections in every disciplined run of the device
 table. The counting invariant and its steps are in module DeviceRefCount.
*/
module DeviceConnections {
  import opened Words
  import opened RwLocks
  import opened DeviceTable
  import opened DeviceRefCount

  /** The counting invariant holds in every state of every disciplined run. */
  lemma {:induction false} DisciplinedRunKeepsInv(r: seq<State>, i: nat)
    requires DisciplinedRun(r) && i < |r|
    ensures DeviceTable.Inv(r[i]) && CountInv(r[i])
  {
    hide DeviceTable.Inv, CountInv, DisciplinedNext;
    if i == 0 {
      var threads: set<Tid> :| |threads| < 0x1_0000_0000 && r[0] == Initial(threads);
      InitialInv(threads);
      InitialCountInv(threads);
    } else {
      DisciplinedRunKeepsInv(r, i - 1);
      assert DisciplinedStepAt(r, i - 1);
      DisciplinedNextKeepsInv(r[i - 1], r[i]);
    }
  }

  // ---------------------------------------------------------------- main results

  ghost predicate MutexFree(s: State, d: Dev) {
    d in s.mutexes ==> s.mutexes[d] == None
  }

  /** A device that connections are registered for is open, unless it was removed by force. */
  lemma CountedIsOpen(s: State, d: Dev)
    requires DeviceTable.Inv(s) && CountInv(s) && d !in s.forced && HasDevice(s.conns, d)
    ensures DeviceOpen(s, d)
  {
    hide LocksInv, OncePerConn, Serial, ConnView, HasDevice;
    assert DeviceCounted(s, d) && DeviceInv(s, d);
    assert !Clearing(s, d);
    assert IsLive(s, s.table[d].value, d);
  }

  lemma FreeDeviceCount(s: State, d: Dev)
    requires DeviceTable.Inv(s) && CountInv(s) && MutexFree(s, d)
    ensures DeviceOpen(s, d) ==> HasDevice(s.conns, d)
  {
    hide LocksInv, MutexInv, HandlesInv, OncePerConn, Serial, ConnView, UnforcedView, HasDevice;
    assert DeviceCounted(s, d);
  }

  /** No leaked handle: when nobody works on a device and it is open, a connection is registered for it. */
  lemma OpenDeviceHasConnection(r: seq<State>, i: nat, d: Dev)
    requires DisciplinedRun(r) && i < |r| && MutexFree(r[i], d) && DeviceOpen(r[i], d)
    ensures HasDevice(r[i].conns, d)
  {
    hide DeviceTable.Inv, CountInv, DeviceOpen, MutexFree;
    DisciplinedRunKeepsInv(r, i);
    FreeDeviceCount(r[i], d);
  }

  /** At any time, whoever is working on it, a device that some connection is registered for is open,
      unless a removal of that device was forced. */
  lemma RegisteredDeviceIsOpen(r: seq<State>, i: nat, d: Dev)
    requires DisciplinedRun(r) && i < |r| && d !in r[i].forced && HasDevice(r[i].conns, d)
    ensures DeviceOpen(r[i], d)
  {
    hide DeviceTable.Inv, CountInv, DeviceOpen, HasDevice;
    DisciplinedRunKeepsInv(r, i);
    CountedIsOpen(r[i], d);
  }

  /** Exact reference counting: as long as its removal was never forced, and while nobody works on it,
      a device is open if and only if some connection is registered for it. */
  lemma OpenIffConnected(r: seq<State>, i: nat, d: Dev)
    requires DisciplinedRun(r) && i < |r| && MutexFree(r[i], d) && d !in r[i].forced
    ensures DeviceOpen(r[i], d) <==> HasDevice(r[i].conns, d)
  {
    hide DisciplinedRun, DeviceOpen, HasDevice, MutexFree;
    if HasDevice(r[i].conns, d) {
      RegisteredDeviceIsOpen(r, i, d);
    }
    if DeviceOpen(r[i], d) {
      OpenDeviceHasConnection(r, i, d);
    }
  }

  /**
   `open_if_not` answers true exactly when its connection is registered at that point. One that has
   worked on the device is then registered for it; one that is answered at once was registered before,
   for whatever device. A connection is registered for one device at most.
  */
  lemma OpenAnswersRight(r: seq<State>, i: nat, t: Tid)
    requires DisciplinedRun(r) && i < |r| && t in r[i].pcs
    ensures var pc := r[i].pcs[t];
            pc.URelease? && pc.a.Opened? ==>
              && (pc.a.ok <==> HasConn(r[i].conns, pc.c))
              && (pc.a.ok ==> Reg(r[i].conns, pc.c, pc.d))
              && (pc.a.ok && pc.d !in r[i].forced ==> DeviceOpen(r[i], pc.d))
    ensures r[i].pcs[t].OChkUn? ==> (r[i].pcs[t].found <==> HasConn(r[i].conns, r[i].pcs[t].c))
    ensures OncePerConn(r[i].conns)
  {
    hide DisciplinedRun, HasConn, HasDevice, DeviceOpen, DeviceTable.Inv;
    DisciplinedRunKeepsInv(r, i);
    var pc := r[i].pcs[t];
    assert ConnView(r[i].conns, pc);
    hide CountInv;
    if pc.URelease? && pc.a == DeviceTable.After.Opened(true) && pc.d !in r[i].forced {
      HasDeviceIff(r[i].conns, pc.d);
      RegisteredDeviceIsOpen(r, i, pc.d);
    }
  }

  /** A disciplined run is a run, so all results of module DeviceRuns apply to it. */
  lemma DisciplinedRunIsRun(r: seq<State>)
    requires DisciplinedRun(r)
    ensures DeviceTable.Run(r)
  {
    hide InnerStep, StepStart, Initial;
    forall i: nat | i + 1 < |r| ensures DeviceTable.StepAt(r, i) {
      assert DisciplinedStepAt(r, i);
    }
  }
}
