/**
 What a forced removal can do to a later opening. A request that finds its device in the table, waits
 while another thread removes the device by force, and then goes on, puts a null entry back before
 it notices. An opening that comes in between takes that entry for an open device.
*/
module ForcedRemovals {
  import opened Words
  import opened RwLocks
  import opened DeviceTable
  import opened DeviceRefCount
  import opened DeviceConnections
  import opened DeviceMaps
  import opened DeviceSolo

  type Trace = seq<State>

  function Last(r: Trace): State
    requires |r| > 0
  {
    r[|r| - 1]
  }

  // ---------------------------------------------------------------- putting runs together

  lemma InOrder(r: Trace)
    requires |r| > 0 && DisciplinedRun(r)
    ensures DeviceTable.Inv(Last(r)) && CountInv(Last(r))
  {
    hide DeviceTable.Inv, CountInv, DisciplinedRun;
    DisciplinedRunKeepsInv(r, |r| - 1);
  }

  lemma ExtendOne(r: Trace, s: State)
    requires DisciplinedRun(r) && DisciplinedNext(Last(r), s)
    ensures DisciplinedRun(r + [s]) && Last(r + [s]) == s
  {
    hide DisciplinedNext, Initial;
    var w := r + [s];
    assert w[0] == r[0];
    forall i: nat | i + 1 < |w| ensures DisciplinedStepAt(w, i) {
      if i + 1 < |r| {
        assert DisciplinedStepAt(r, i);
      }
    }
  }

  lemma {:induction false} Extend(r: Trace, q: Trace, t: Tid, ch: Choice) returns (w: Trace)
    requires |r| > 0 && DisciplinedRun(r) && Steps(q, t, ch) && q[0] == Last(r)
    ensures |w| > 0 && DisciplinedRun(w) && Last(w) == Last(q)
    decreases |q|
  {
    hide DisciplinedRun, InnerStep, StepStart;
    if |q| == 1 {
      w := r;
    } else {
      assert OwnStepAt(q, 0, t, ch);
      ExtendOne(r, q[1]);
      forall i: nat | i + 1 < |q[1..]| ensures OwnStepAt(q[1..], i, t, ch) {
        assert OwnStepAt(q, i + 1, t, ch);
      }
      w := Extend(r + [q[1]], q[1..], t, ch);
    }
  }

  /** A call that meets no other, at the end of a run. */
  lemma CallAlone(r: Trace, t: Tid, call: Call, present: bool) returns (w: Trace)
    requires |r| > 0 && DisciplinedRun(r) && Alone(Last(r), t) && Last(r).pcs[t].Idle?
    requires call.c != UINT32_MAX && Disciplined(Last(r), call)
    ensures |w| > 0 && DisciplinedRun(w) && Last(w).pcs == Last(r).pcs && Alone(Last(w), t)
    ensures ContentOf(Last(w)) == AfterCall(ContentOf(Last(r)), call, Last(r).issued, present)
  {
    hide DisciplinedRun, InnerStep, StepStart, Disciplined, DeviceTable.Inv, CountInv, AfterOpen, AfterRemove, AfterSend, LockAlone;
    InOrder(r);
    var q := SoloCallMatchesClass(Last(r), t, call, present);
    assert DisciplinedNext(Last(r), q[0]);
    ExtendOne(r, q[0]);
    w := Extend(r + [q[0]], q, t, Choice(present, None));
  }

  /** A thread that needs no lock leaves the locks to the others. */
  lemma LeavesLocksFree(s: State, t: Tid)
    requires LocksInv(s) && Alone(s, t) && RwNeed(s.pcs[t]) == Nothing && PoolNeed(s.pcs[t]) == Nothing
    ensures Unlocked(s.rw) && Unlocked(s.poolRw)
  {
    hide RwLocks.Inv;
    assert s.rw.pos[t] == Out && s.poolRw.pos[t] == Out;
  }

  // ---------------------------------------------------------------- one thread, up to a point

  /** What one step may do to thread `t`. */
  ghost predicate MovesAs(s: State, s': State, t: Tid, ch: Choice)
    requires t in s.pcs && t in s'.pcs
  {
    var pc, pc' := s.pcs[t], s'.pcs[t];
    || (pc' == pc && ContentOf(s') == ContentOf(s))
    || (RwLeaves(pc) && pc' == AfterRwLeave(pc) && ContentOf(s') == ContentOf(s))
    || (PoolHeld(pc) && pc' == AfterPoolLeave(pc) && ContentOf(s') == ContentOf(s))
    || (CanAct(s, t) && pc' == NextPc(s, pc, ch) && ContentOf(s') == Done(s, pc))
  }

  /** A step moves a thread as the steps of its program counter say. */
  lemma StepShape(s: State, s': State, t: Tid, ch: Choice)
    requires InnerStep(s, s', t, ch) && t in s.pcs
    ensures t in s'.pcs && MovesAs(s, s', t, ch)
  {
    hide Acquires, LeaveStep, SpuriousWake, CanAct, Act, ContentOf, Done, AfterRwLeave, AfterPoolLeave, RwHeld,
         RwLeaves, PoolHeld, RwNeed, PoolNeed;
    if StepAct(s, s', t, ch) {
      ActMovesAs(s, t, ch);
    } else {
      assert ContentOf(s') == ContentOf(s) by {
        SameContent(s, s');
      }
    }
  }

  lemma SameContent(s: State, s': State)
    requires s'.table == s.table && s'.conns == s.conns
    ensures ContentOf(s') == ContentOf(s)
  {
  }

  lemma ActMovesAs(s: State, t: Tid, ch: Choice)
    requires CanAct(s, t)
    ensures t in Act(s, t, ch).pcs && MovesAs(s, Act(s, t, ch), t, ch)
  {
    hide CanAct, NextPc, TableAfter, ConnsAfter, MutexesAfter, LiveAfter, AfterRwLeave, AfterPoolLeave, RwHeld,
         RwLeaves, PoolHeld;
  }

  const DEV: Dev := 7
  const BOTH: seq<(ConnId, Dev)> := [(1, DEV), (2, DEV)]

  /** A late send, from the lock of the device mutex pool on, and then its forced removal. */
  predicate LateSend(s: State, t: Tid) {
    t in s.pcs &&
    var pc := s.pcs[t];
    if HasTask(pc) || pc.SUse? then
      pc.d == DEV && (HasTask(pc) ==> pc.k == ForSend) && ContentOf(s) == Content(map[], BOTH)
    else
      HasAfter(pc) && pc.d == DEV && pc.a == RemoveByForce && ContentOf(s) == Content(map[DEV := None], BOTH)
  }

  lemma LateSendStep(s: State, s': State, t: Tid, ch: Choice)
    requires LateSend(s, t) && !s.pcs[t].URelease? && InnerStep(s, s', t, ch) && OwnerView(s, s.pcs[t])
    ensures LateSend(s', t)
  {
    hide InnerStep, CanAct, IsLive, EntryIs;
    StepShape(s, s', t, ch);
  }

  /** It comes to the release of the device mutex, and leaves a null entry. */
  lemma {:induction false} RunLateSend(s: State, t: Tid, ch: Choice) returns (q: Trace)
    requires DeviceTable.Inv(s) && Alone(s, t) && LateSend(s, t) && ch.woken == None
    ensures Steps(q, t, ch) && q[0] == s
    ensures var e := Last(q);
            && Alone(e, t) && LateSend(e, t) && e.pcs[t].URelease?
            && e.pcs == s.pcs[t := e.pcs[t]]
    decreases ToGo(s, t)
  {
    hide DeviceTable.Inv, InnerStep, ToGo, LockAlone, LateSend, Success, Rest, Owns;
    AloneIsThere(s, t);
    if s.pcs[t].URelease? {
      q := [s];
    } else {
      LateSendIsCall(s, t);
      var s' := SoloProgress(s, t, ch);
      ThreadView(s, t);
      LateSendStep(s, s', t, ch);
      InnerStepKeepsInv(s, s', t, ch);
      var rest := RunLateSend(s', t, ch);
      q := Prepend(s, rest, t, ch);
    }
  }

  lemma LateSendIsCall(s: State, t: Tid)
    requires LateSend(s, t)
    ensures t in s.pcs && !s.pcs[t].Idle?
  {
  }

  lemma ThreadView(s: State, t: Tid)
    requires DeviceTable.Inv(s) && t in s.pcs
    ensures OwnerView(s, s.pcs[t])
  {
  }

  lemma Prepend(s: State, rest: Trace, t: Tid, ch: Choice) returns (q: Trace)
    requires Steps(rest, t, ch) && InnerStep(s, rest[0], t, ch)
    ensures Steps(q, t, ch) && q[0] == s && Last(q) == Last(rest)
  {
    hide InnerStep;
    q := [s] + rest;
    forall i: nat | i + 1 < |q| ensures OwnStepAt(q, i, t, ch) {
      if i > 0 {
        assert OwnStepAt(rest, i - 1, t, ch);
      }
    }
  }

  /** An opening that finds the null entry. */
  predicate Misled(s: State, t: Tid) {
    t in s.pcs && MisledAt(s.pcs[t], ContentOf(s))
  }

  predicate MisledAt(pc: Pc, now: Content) {
    && !pc.Idle? && pc.c == 3 && pc.d == DEV
    && if pc.OUn? || HasAfter(pc) then
         now == Content(map[DEV := None], BOTH + [(3, DEV)])
         && (pc.OUn? ==> pc.ok) && (HasAfter(pc) ==> pc.a == After.Opened(true))
       else
         now == Content(map[DEV := None], BOTH)
         && (pc.OChk? || (pc.OChkUn? && !pc.found) || (HasTask(pc) && pc.k == ForOpen) || pc.OFind? || pc.OAddConn?)
  }

  lemma MisledStep(s: State, s': State, t: Tid, ch: Choice)
    requires Misled(s, t) && !s.pcs[t].URelease? && InnerStep(s, s', t, ch) && OwnerView(s, s.pcs[t])
    ensures Misled(s', t)
  {
    hide InnerStep, CanAct, MisledAt, OwnerView, ContentOf, NextPc, Done, AfterRwLeave, AfterPoolLeave, RwLeaves, PoolHeld;
    StepShape(s, s', t, ch);
    MisledMoves(s, t, ch);
  }

  /** What the next step of a misled opening comes to. */
  lemma MisledMoves(s: State, t: Tid, ch: Choice)
    requires Misled(s, t) && !s.pcs[t].URelease? && OwnerView(s, s.pcs[t])
    ensures RwLeaves(s.pcs[t]) ==> MisledAt(AfterRwLeave(s.pcs[t]), ContentOf(s))
    ensures PoolHeld(s.pcs[t]) ==> MisledAt(AfterPoolLeave(s.pcs[t]), ContentOf(s))
    ensures CanAct(s, t) ==> MisledAt(NextPc(s, s.pcs[t], ch), Done(s, s.pcs[t]))
  {
  }

  /** It comes to the release of the device mutex with the answer true. */
  lemma {:induction false} RunMisled(s: State, t: Tid, ch: Choice) returns (q: Trace)
    requires DeviceTable.Inv(s) && Alone(s, t) && Misled(s, t) && ch.woken == None
    ensures Steps(q, t, ch) && q[0] == s && Misled(Last(q), t) && Last(q).pcs[t].URelease?
    decreases ToGo(s, t)
  {
    hide DeviceTable.Inv, InnerStep, ToGo, LockAlone, Misled, Success, Rest, Owns;
    AloneIsThere(s, t);
    if s.pcs[t].URelease? {
      q := [s];
    } else {
      MisledIsCall(s, t);
      var s' := SoloProgress(s, t, ch);
      ThreadView(s, t);
      MisledStep(s, s', t, ch);
      InnerStepKeepsInv(s, s', t, ch);
      var rest := RunMisled(s', t, ch);
      q := Prepend(s, rest, t, ch);
    }
  }

  lemma MisledIsCall(s: State, t: Tid)
    requires Misled(s, t)
    ensures t in s.pcs && !s.pcs[t].Idle?
  {
  }

  /** A thread at the release of a device mutex can release it, and is then outside of all locks. */
  lemma Release(s: State, t: Tid, ch: Choice) returns (s': State)
    requires DeviceTable.Inv(s) && Alone(s, t) && s.pcs[t].URelease?
    ensures InnerStep(s, s', t, ch) && s'.pcs == s.pcs[t := Ended(s.pcs[t].d, s.pcs[t].a)] && ContentOf(s') == ContentOf(s)
    ensures Unlocked(s'.rw) && Unlocked(s'.poolRw)
  {
    hide RwLocks.Inv, HandlesInv, MutexInv, Unlocked;
    LeavesLocksFree(s, t);
    s' := Act(s, t, ch);
    assert StepAct(s, s', t, ch);
  }

  /** A send that has found its device and has given the table lock back. */
  lemma ParkSend(s: State, t: Tid, ch: Choice) returns (q: Trace)
    requires DeviceTable.Inv(s) && t in s.pcs && s.pcs[t].SFind? && s.pcs[t].d in s.table && ch.woken == None
    requires Unlocked(s.rw) && Unlocked(s.poolRw)
    ensures Steps(q, t, ch) && q[0] == s
    ensures Last(q).pcs == s.pcs[t := MFind(s.pcs[t].c, s.pcs[t].d, ForSend)] && ContentOf(Last(q)) == ContentOf(s)
    ensures Unlocked(Last(q).rw) && Unlocked(Last(q).poolRw)
  {
    hide DeviceTable.Inv, InnerStep, Unlocked, ReadBy;
    var s1 := SendLocks(s, t, ch);
    var s2 := SendFinds(s1, t, ch);
    var s3 := SendUnlocks(s2, t, ch);
    q := [s, s1, s2, s3];
    assert OwnStepAt(q, 0, t, ch) && OwnStepAt(q, 1, t, ch) && OwnStepAt(q, 2, t, ch);
  }

  lemma SendLocks(s: State, t: Tid, ch: Choice) returns (s': State)
    requires DeviceTable.Inv(s) && t in s.pcs && s.pcs[t].SFind? && Unlocked(s.rw)
    ensures InnerStep(s, s', t, ch) && s' == s.(rw := s'.rw) && ReadBy(s'.rw, t)
  {
    hide MutexInv, HandlesInv, RwLocks.Inv, Unlocked, Acquires;
    var l := AcquireAlone(s.rw, t, Shared);
    s' := s.(rw := l);
    assert StepAcquireRw(s, s', t);
    ReadingIsReadBy(l, t);
  }

  lemma SendFinds(s: State, t: Tid, ch: Choice) returns (s': State)
    requires t in s.pcs && s.pcs[t].SFind? && s.pcs[t].d in s.table && ReadBy(s.rw, t)
    ensures InnerStep(s, s', t, ch)
    ensures s' == s.(pcs := s.pcs[t := SFindUn(s.pcs[t].c, s.pcs[t].d, true)])
  {
    hide OthersOut;
    s' := Act(s, t, ch);
    assert StepAct(s, s', t, ch);
  }

  lemma SendUnlocks(s: State, t: Tid, ch: Choice) returns (s': State)
    requires t in s.pcs && s.pcs[t].SFindUn? && s.pcs[t].found && ReadBy(s.rw, t) && ch.woken == None
    ensures InnerStep(s, s', t, ch) && Unlocked(s'.rw)
    ensures s' == s.(rw := s'.rw, pcs := s.pcs[t := MFind(s.pcs[t].c, s.pcs[t].d, ForSend)])
  {
    hide ReadBy, Unlocked, LeaveStep;
    var l := LeaveAlone(s.rw, t);
    s' := s.(rw := l, pcs := s.pcs[t := AfterRwLeave(s.pcs[t])]);
    assert StepLeaveRw(s, s', t, ch);
  }

  lemma ReadingIsReadBy(l: Lock, t: Tid)
    requires LockAlone(l, t) && IsAt(l, t, Reading)
    ensures ReadBy(l, t)
  {
  }

  // ---------------------------------------------------------------- the run

  lemma TwoConnections(threads: set<Tid>) returns (r: Trace)
    requires threads == {0, 1, 2}
    ensures |r| > 0 && DisciplinedRun(r)
    ensures Last(r).pcs == Initial(threads).pcs && Unlocked(Last(r).rw) && Unlocked(Last(r).poolRw)
    ensures exists h: Handle :: ContentOf(Last(r)) == Content(map[DEV := Some(h)], BOTH)
  {
    hide DeviceTable.Inv, CountInv, LockAlone, Unlocked, OncePerConn;
    var s := Initial(threads);
    assert |threads| == 3;
    r := [s];
    assert DisciplinedRun(r);
    InOrder(r);
    QuietIsAlone(s, 0);
    hide DisciplinedRun;
    r := CallAlone(r, 0, Open(1, DEV), true);
    var h := s.issued;
    FirstOpening(h);
    assert Last(r).pcs == s.pcs;
    var issued := Last(r).issued;
    r := CallAlone(r, 0, Open(2, DEV), true);
    SecondOpening(h, issued);
    assert ContentOf(Last(r)) == Content(map[DEV := Some(h)], BOTH);
    InOrder(r);
    QuietIsAlone(Last(r), 0);
  }

  lemma FirstOpening(h: Handle)
    ensures AfterOpen(Content(map[], []), 1, DEV, Some(h)).0 == Content(map[DEV := Some(h)], [(1, DEV)])
  {
    assert [] + [(1, DEV)] == [(1, DEV)];
  }

  lemma SecondOpening(h: Handle, next: Handle)
    ensures AfterOpen(Content(map[DEV := Some(h)], [(1, DEV)]), 2, DEV, Some(next)).0 == Content(map[DEV := Some(h)], BOTH)
  {
    assert [(1, DEV)] + [(2, DEV)] == BOTH;
  }

  lemma DeviceLost(h: Handle)
    ensures AfterSend(Content(map[DEV := Some(h)], BOTH), DEV, false) == Content(map[], BOTH)
  {
    assert FirstOf(BOTH[2..], UINT32_MAX) == 0;
    assert BOTH[1..][1..] == BOTH[2..];
    assert FirstOf(BOTH[1..], UINT32_MAX) == 1;
    assert FirstOf(BOTH, UINT32_MAX) == 2;
    assert map[DEV := Some(h)] - {DEV} == map[];
  }

  /** One send waits, another one removes the device by force, and the first one goes on. */
  lemma NullEntry(threads: set<Tid>) returns (r: Trace)
    requires threads == {0, 1, 2}
    ensures |r| > 0 && DisciplinedRun(r)
    ensures Last(r).pcs == Initial(threads).pcs[0 := CChk(UINT32_MAX, DEV, true)]
    ensures Unlocked(Last(r).rw) && Unlocked(Last(r).poolRw)
    ensures ContentOf(Last(r)) == Content(map[DEV := None], BOTH)
  {
    hide DeviceTable.Inv, CountInv, DisciplinedRun, Unlocked, InnerStep, AfterSend;
    var lost := Choice(false, None);
    r := TwoConnections(threads);
    var h: Handle :| ContentOf(Last(r)) == Content(map[DEV := Some(h)], BOTH);
    var s := Last(r);
    var s' := s.(pcs := s.pcs[0 := SFind(1, DEV)]);
    assert Disciplined(s, Send(1, DEV)) by {
      assert BOTH[0] == (1, DEV);
    }
    assert StepStart(s, s', 0, Send(1, DEV));
    ExtendOne(r, s');
    r := r + [s'];
    InOrder(r);
    var q := ParkSend(s', 0, lost);
    r := Extend(r, q, 0, lost);
    assert Disciplined(Last(r), Send(2, DEV)) by {
      assert BOTH[1] == (2, DEV);
    }
    r := CallAlone(r, 1, Send(2, DEV), false);
    DeviceLost(h);
    InOrder(r);
    LocksAreFree(Last(r), 1);
    q := RunLateSend(Last(r), 0, lost);
    r := Extend(r, q, 0, lost);
    InOrder(r);
    s' := Release(Last(r), 0, lost);
    ExtendOne(r, s');
    r := r + [s'];
  }

  lemma LocksAreFree(s: State, t: Tid)
    requires DeviceTable.Inv(s) && Alone(s, t) && s.pcs[t].Idle?
    ensures Unlocked(s.rw) && Unlocked(s.poolRw)
  {
    hide MutexInv, HandlesInv;
    LeavesLocksFree(s, t);
  }

  /**
   The witness: a disciplined run, with a forced removal, in which an opening is about to answer true,
   and its device is not open.
  */
  lemma OpeningAnswersWithoutDevice() returns (r: Trace, t: Tid)
    ensures |r| > 0 && DisciplinedRun(r) && t in Last(r).pcs
    ensures Last(r).pcs[t] == URelease(3, DEV, After.Opened(true)) && !DeviceOpen(Last(r), DEV) && DEV in Last(r).forced
  {
    hide DeviceTable.Inv, CountInv, DisciplinedRun, Unlocked, InnerStep, DeviceOpen;
    var ch := Choice(true, None);
    t := 2;
    r := NullEntry({0, 1, 2});
    var s := Last(r);
    var s' := s.(pcs := s.pcs[2 := OChk(3, DEV)]);
    assert StepStart(s, s', 2, Open(3, DEV)) && Disciplined(s, Open(3, DEV));
    ExtendOne(r, s');
    r := r + [s'];
    InOrder(r);
    var q := RunMisled(s', 2, ch);
    r := Extend(r, q, 2, ch);
    InOrder(r);
    NotOpen(Last(r), 2);
    OpenAnswersRight(r, |r| - 1, 2);
  }

  lemma NotOpen(s: State, t: Tid)
    requires DeviceTable.Inv(s) && Misled(s, t) && s.pcs[t].URelease?
    ensures !DeviceOpen(s, DEV)
  {
    hide LocksInv;
    assert OwnedBy(s, DEV, t) && DeviceInv(s, DEV) && EntryIs(s, DEV, None);
    forall h: Handle ensures !IsLive(s, h, DEV) {
      assert !Placing(s, h, DEV);
    }
  }
}
