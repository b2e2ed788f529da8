/**
 When does a true answer of `open_if_not` mean that the device is open? An opening that creates or
 finds the device is followed from its `find` to its answer, through every interleaving; one whose
 connection is registered already is answered at once.
*/
module DeviceOpenings {
  import opened Words
  import opened RwLocks
  import opened DeviceTable
  import opened DeviceRuns
  import opened DeviceRefCount
  import opened DeviceConnections

  // ---------------------------------------------------------------- from find to answer

  /** Thread `t` is inside one and the same call from state `i` to state `j`. */
  ghost predicate InCall(r: seq<State>, i: nat, j: nat, t: Tid)
    requires j < |r|
  {
    forall k: nat :: i <= k <= j ==> Busy(r[k], t)
  }

  predicate Busy(s: State, t: Tid) {
    t in s.pcs && !s.pcs[t].Idle?
  }

  /** The entry is there, and it is the null placeholder exactly if `find` met that. */
  ghost predicate AsFound(s: State, d: Dev, wasNull: bool) {
    d in s.table && (s.table[d].None? <==> wasNull)
  }

  /** How an opening of device `d` goes on after its `find`; `wasNull` tells what that met. */
  ghost predicate Follows(s: State, pc: Pc, c: ConnId, d: Dev, wasNull: bool) {
    match pc
    case OFind(c1, d1) => c1 == c && d1 == d && (EntryIs(s, d, None) <==> wasNull)
    case OAddConn(c1, d1) => c1 == c && d1 == d && AsFound(s, d, wasNull)
    case OPlace(c1, d1) => c1 == c && d1 == d && !wasNull
    case OTestNull(c1, d1) => c1 == c && d1 == d && !wasNull
    case OCreateUn(c1, d1) => c1 == c && d1 == d && !wasNull
    case OCreate(c1, d1) => c1 == c && d1 == d && !wasNull
    case OSet(c1, d1, _) => c1 == c && d1 == d && !wasNull
    case OSetConn(c1, d1, _) => c1 == c && d1 == d && !wasNull
    case OClear(c1, d1, _) => c1 == c && d1 == d && !wasNull
    case OUn(c1, d1, ok) => c1 == c && d1 == d && Outcome(s, d, ok, wasNull)
    case UFind(c1, d1, a) => c1 == c && d1 == d && a.Opened? && Outcome(s, d, a.ok, wasNull)
    case UFindUn(c1, d1, a, _) => c1 == c && d1 == d && a.Opened? && Outcome(s, d, a.ok, wasNull)
    case URelease(c1, d1, a) => c1 == c && d1 == d && a.Opened? && Outcome(s, d, a.ok, wasNull)
    case _ => false
  }

  /** What the answer `ok` says about the entry. */
  ghost predicate Outcome(s: State, d: Dev, ok: bool, wasNull: bool) {
    if ok then AsFound(s, d, wasNull) else d !in s.table && !wasNull
  }

  lemma FollowsOwns(s: State, pc: Pc, c: ConnId, d: Dev, wasNull: bool)
    requires Follows(s, pc, c, d, wasNull)
    ensures Owns(pc) == Some(d)
  {
  }

  /** Whoever leaves the device alone does not disturb the opening. */
  lemma FollowsKept(s: State, s': State, pc: Pc, c: ConnId, d: Dev, wasNull: bool)
    requires Follows(s, pc, c, d, wasNull)
    requires (d in s'.table <==> d in s.table) && (d in s.table ==> s'.table[d] == s.table[d])
    ensures Follows(s', pc, c, d, wasNull)
  {
  }

  lemma ActFollows(s: State, t: Tid, ch: Choice, c: ConnId, d: Dev, wasNull: bool)
    requires CanAct(s, t) && OwnerView(s, s.pcs[t]) && Follows(s, s.pcs[t], c, d, wasNull)
    requires !NextPc(s, s.pcs[t], ch).Idle?
    ensures Follows(Act(s, t, ch), NextPc(s, s.pcs[t], ch), c, d, wasNull)
  {
    hide CanAct, HasConn, HasDevice, ConnsAfter, MutexesAfter, LiveAfter;
  }

  lemma LeaveFollows(s: State, pc: Pc, c: ConnId, d: Dev, wasNull: bool)
    requires OwnerView(s, pc) && Follows(s, pc, c, d, wasNull)
    ensures RwLeaves(pc) ==> Follows(s, AfterRwLeave(pc), c, d, wasNull)
    ensures PoolHeld(pc) ==> Follows(s, AfterPoolLeave(pc), c, d, wasNull)
  {
  }

  /** A step that is no operation changes no entry, and moves one thread by giving up a lock. */
  lemma LockStepMoves(s: State, s': State, u: Tid, ch: Choice, t: Tid)
    requires LocksInv(s) && t in s.pcs && InnerStep(s, s', u, ch) && !StepAct(s, s', u, ch)
    ensures s'.table == s.table && t in s'.pcs
    ensures var pc, pc' := s.pcs[t], s'.pcs[t];
            pc' == pc || (RwLeaves(pc) && pc' == AfterRwLeave(pc)) || (PoolHeld(pc) && pc' == AfterPoolLeave(pc))
  {
    hide Acquires, LeaveStep, SpuriousWake, RwNeed, PoolNeed, RwHeld, PosFits, RwLocks.Inv, AfterRwLeave,
         AfterPoolLeave, RwLeaves, PoolHeld, CanAct, Act;
  }

  lemma InnerStepFollows(s: State, s': State, u: Tid, ch: Choice, t: Tid, c: ConnId, d: Dev, wasNull: bool)
    requires DeviceTable.Inv(s) && InnerStep(s, s', u, ch) && t in s.pcs && Follows(s, s.pcs[t], c, d, wasNull)
    requires Busy(s', t)
    ensures Follows(s', s'.pcs[t], c, d, wasNull)
  {
    hide InnerStep, LocksInv, MutexInv, HandlesInv, OwnerView, Follows, Act, CanAct, NextPc;
    ViewOf(s, t);
    if StepAct(s, s', u, ch) {
      ActShape(s, u, ch);
      ActMoves(s, u, ch);
      if u == t {
        ActFollows(s, t, ch, c, d, wasNull);
      } else {
        FollowsOwns(s, s.pcs[t], c, d, wasNull);
        OwnersDiffer(s, u, t);
        ActKeepsDevice(s, u, ch, d);
        FollowsKept(s, s', s.pcs[t], c, d, wasNull);
      }
    } else {
      LockStepMoves(s, s', u, ch, t);
      LeaveFollows(s, s.pcs[t], c, d, wasNull);
      FollowsKept(s, s', s'.pcs[t], c, d, wasNull);
    }
  }

  lemma ActMoves(s: State, t: Tid, ch: Choice)
    requires CanAct(s, t)
    ensures t in s.pcs && t in Act(s, t, ch).pcs && Act(s, t, ch).pcs[t] == NextPc(s, s.pcs[t], ch)
  {
  }

  lemma NextFollows(s: State, s': State, t: Tid, c: ConnId, d: Dev, wasNull: bool)
    requires DeviceTable.Inv(s) && DeviceTable.Next(s, s') && t in s.pcs && Follows(s, s.pcs[t], c, d, wasNull)
    requires Busy(s', t)
    ensures Follows(s', s'.pcs[t], c, d, wasNull)
  {
    hide DeviceTable.Inv, InnerStep;
    if u, ch :| InnerStep(s, s', u, ch) {
      InnerStepFollows(s, s', u, ch, t, c, d, wasNull);
    } else {
      var u, call :| StepStart(s, s', u, call);
      FollowsKept(s, s', s.pcs[t], c, d, wasNull);
    }
  }

  lemma {:induction false} OpeningFollows(r: seq<State>, i: nat, j: nat, t: Tid, c: ConnId, d: Dev)
    requires DeviceTable.Run(r) && i <= j < |r| && InCall(r, i, j, t) && t in r[i].pcs && r[i].pcs[t] == OFind(c, d)
    ensures t in r[j].pcs && Follows(r[j], r[j].pcs[t], c, d, EntryIs(r[i], d, None))
  {
    hide DeviceTable.Next, DeviceTable.Inv, Initial, EntryIs;
    if i < j {
      assert InCall(r, i, j - 1, t);
      OpeningFollows(r, i, j - 1, t, c, d);
      assert DeviceTable.StepAt(r, j - 1);
      DeviceRuns.RunKeepsInv(r, j - 1);
      assert Busy(r[j], t);
      hide Follows;
      NextFollows(r[j - 1], r[j], t, c, d, EntryIs(r[i], d, None));
    }
  }

  /** At the release of the device mutex the entry tells whether the device is open. */
  lemma EntryTells(s: State, t: Tid)
    requires DeviceTable.Inv(s) && t in s.pcs && s.pcs[t].URelease?
    ensures DeviceOpen(s, s.pcs[t].d) <==> Entry(s.table, s.pcs[t].d).Some?
  {
    hide LocksInv;
    var d := s.pcs[t].d;
    assert OwnedBy(s, d, t) && DeviceInv(s, d);
    DeviceHereIs(s, d, t);
    if Entry(s.table, d).Some? {
      assert IsLive(s, s.table[d].value, d);
    }
  }

  /**
   What an opening found decides what its answer means: in every run, an opening that met no entry or
   a stored handle answers true if and only if its device is open; one that met the null placeholder
   always answers true, and its device is not open.
  */
  lemma AnswerMeansOpenIff(r: seq<State>, i: nat, j: nat, t: Tid)
    requires DeviceTable.Run(r) && i <= j < |r| && InCall(r, i, j, t)
    requires t in r[i].pcs && t in r[j].pcs && r[i].pcs[t].OFind? && r[j].pcs[t].URelease?
    ensures var c, d, a := r[i].pcs[t].c, r[i].pcs[t].d, r[j].pcs[t].a;
            && r[j].pcs[t] == URelease(c, d, a) && a.Opened?
            && (DeviceOpen(r[j], d) <==> a.ok && !EntryIs(r[i], d, None))
            && (EntryIs(r[i], d, None) ==> a.ok)
  {
    hide DeviceTable.Run, DeviceTable.Inv, DeviceOpen, InCall;
    OpeningFollows(r, i, j, t, r[i].pcs[t].c, r[i].pcs[t].d);
    DeviceRuns.RunKeepsInv(r, j);
    EntryTells(r[j], t);
  }

  /** A device that was not removed by force before is found without a null entry. */
  lemma NoNullEntry(s: State, t: Tid)
    requires DeviceTable.Inv(s) && CountInv(s) && t in s.pcs && s.pcs[t].OFind? && s.pcs[t].d !in s.forced
    ensures !EntryIs(s, s.pcs[t].d, None)
  {
    hide LocksInv, HandlesInv, OncePerConn, Serial, ConnView, UnforcedView;
    var d := s.pcs[t].d;
    assert OwnedBy(s, d, t) && DeviceCounted(s, d);
  }

  /** So, in disciplined runs, an opening answers true if and only if its device is then open, unless a
      forced removal of that device had begun before it looked. */
  lemma UnforcedAnswerMeansOpen(r: seq<State>, i: nat, j: nat, t: Tid)
    requires DisciplinedRun(r) && i <= j < |r| && InCall(r, i, j, t)
    requires t in r[i].pcs && t in r[j].pcs && r[i].pcs[t].OFind? && r[j].pcs[t].URelease?
    requires r[i].pcs[t].d !in r[i].forced
    ensures r[j].pcs[t].a.Opened? && (DeviceOpen(r[j], r[i].pcs[t].d) <==> r[j].pcs[t].a.ok)
  {
    hide DisciplinedRun, DeviceTable.Run, DeviceTable.Inv, CountInv, DeviceOpen, InCall, EntryIs;
    DisciplinedRunIsRun(r);
    AnswerMeansOpenIff(r, i, j, t);
    DisciplinedRunKeepsInv(r, i);
    NoNullEntry(r[i], t);
  }

  // ---------------------------------------------------------------- every true answer

  /** An opening of device `d` by connection `c` is about to answer true. */
  predicate AnswersTrue(pc: Pc, c: ConnId, d: Dev) {
    pc == OChkUn(c, d, true) || pc == URelease(c, d, After.Opened(true))
  }

  /**
   When a true answer means an open device, as long as that device was never removed by force. After a
   `find` it always does. A connection that is registered already is answered at once, and then it does
   for the device it is registered for; for another device, if some connection is registered for that,
   and, while nobody works on that device, only if.
  */
  lemma TrueAnswerMeansOpen(r: seq<State>, i: nat, t: Tid, c: ConnId, d: Dev)
    requires DisciplinedRun(r) && i < |r| && t in r[i].pcs && AnswersTrue(r[i].pcs[t], c, d) && d !in r[i].forced
    ensures HasConn(r[i].conns, c) && (r[i].pcs[t].URelease? ==> Reg(r[i].conns, c, d))
    ensures Reg(r[i].conns, c, d) ==> DeviceOpen(r[i], d)
    ensures HasDevice(r[i].conns, d) ==> DeviceOpen(r[i], d)
    ensures MutexFree(r[i], d) ==> (DeviceOpen(r[i], d) <==> HasDevice(r[i].conns, d))
  {
    hide DeviceOpen, MutexFree, DisciplinedRun, HasConn, HasDevice;
    OpenAnswersRight(r, i, t);
    HasDeviceIff(r[i].conns, d);
    if HasDevice(r[i].conns, d) {
      RegisteredDeviceIsOpen(r, i, d);
    }
    if MutexFree(r[i], d) {
      OpenIffConnected(r, i, d);
    }
  }

  /** In every run, forced removals or not: while nobody works on a device, it is open if and only if its
      entry holds a handle. That is also what decides whether an answer given at once means an open device. */
  lemma OpenIffStored(r: seq<State>, i: nat, d: Dev)
    requires DeviceTable.Run(r) && i < |r| && MutexFree(r[i], d)
    ensures DeviceOpen(r[i], d) <==> Entry(r[i].table, d).Some?
  {
    hide DeviceTable.Run, LocksInv, MutexInv;
    DeviceRuns.RunKeepsInv(r, i);
    assert DeviceInv(r[i], d);
    if Entry(r[i].table, d).Some? {
      assert IsLive(r[i], r[i].table[d].value, d);
    }
  }
}
