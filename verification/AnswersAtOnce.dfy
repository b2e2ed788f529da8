/**
 Openings that are answered true at once, because their connection is registered, although their
 device is not open: one for another device, and one after a forced removal.
*/
module AnswersAtOnce {
  import opened Words
  import opened RwLocks
  import opened DeviceTable
  import opened DeviceRefCount
  import opened DeviceMaps
  import opened DeviceSolo
  import opened ForcedRemovals

  // ---------------------------------------------------------------- nothing is forced

  /** Calls that force nothing: openings, and none at all. */
  predicate Harmless(pc: Pc) {
    pc.Idle? || IsOpen(pc)
  }

  lemma HarmlessStep(s: State, s': State, t: Tid, ch: Choice)
    requires t in s.pcs && Harmless(s.pcs[t]) && InnerStep(s, s', t, ch)
    ensures t in s'.pcs && Harmless(s'.pcs[t]) && s'.forced == s.forced
  {
    hide Acquires, LeaveStep, SpuriousWake, RwHeld, PoolHeld, RwLeaves, HasConn, HasDevice, CanAct, Act;
    if StepAct(s, s', t, ch) {
      HarmlessAct(s, t, ch);
    }
  }

  lemma HarmlessAct(s: State, t: Tid, ch: Choice)
    requires CanAct(s, t) && Harmless(s.pcs[t])
    ensures t in Act(s, t, ch).pcs && Harmless(Act(s, t, ch).pcs[t]) && Act(s, t, ch).forced == s.forced
  {
    hide HasConn, HasDevice, TableAfter, ConnsAfter, MutexesAfter, LiveAfter;
  }

  lemma {:induction false} HarmlessSteps(q: Trace, t: Tid, ch: Choice)
    requires Steps(q, t, ch) && t in q[0].pcs && Harmless(q[0].pcs[t])
    ensures Last(q).forced == q[0].forced
    decreases |q|
  {
    hide InnerStep, Harmless;
    if |q| > 1 {
      assert OwnStepAt(q, 0, t, ch);
      HarmlessStep(q[0], q[1], t, ch);
      var rest := q[1..];
      forall i: nat | i + 1 < |rest| ensures OwnStepAt(rest, i, t, ch) {
        assert OwnStepAt(q, i + 1, t, ch);
      }
      HarmlessSteps(rest, t, ch);
    }
  }

  // ---------------------------------------------------------------- an opening up to its first look

  /** An opening that meets no other call, up to where it knows whether its connection is registered. */
  lemma LookUp(r: Trace, t: Tid, c: ConnId, d: Dev) returns (w: Trace)
    requires |r| > 0 && DisciplinedRun(r) && t in Last(r).pcs && Idlers(Last(r)) && c != UINT32_MAX
    ensures |w| > 0 && DisciplinedRun(w) && ContentOf(Last(w)) == ContentOf(Last(r)) && Last(w).forced == Last(r).forced
    ensures Last(w).pcs == Last(r).pcs[t := OChkUn(c, d, HasConn(Last(r).conns, c))]
  {
    hide DisciplinedRun, InnerStep, StepStart, DeviceTable.Inv, CountInv, ReadBy, Unlocked, HasConn;
    var ch := Choice(true, None);
    var s := Last(r);
    var s1 := s.(pcs := s.pcs[t := OChk(c, d)]);
    IdlersStart(s, s1, t, c, d);
    InOrder(r);
    QuietIsAlone(s, t);
    ExtendOne(r, s1);
    InOrder(r + [s1]);
    var s2 := OpenLocks(s1, t, ch);
    var s3 := OpenLooks(s2, t, ch);
    var q := [s1, s2, s3];
    assert OwnStepAt(q, 0, t, ch) && OwnStepAt(q, 1, t, ch);
    w := Extend(r + [s1], q, t, ch);
  }

  predicate Idlers(s: State) {
    forall u :: u in s.pcs ==> s.pcs[u].Idle?
  }

  lemma IdlersStart(s: State, s': State, t: Tid, c: ConnId, d: Dev)
    requires Idlers(s) && t in s.pcs && c != UINT32_MAX && s' == s.(pcs := s.pcs[t := OChk(c, d)])
    ensures DisciplinedNext(s, s')
  {
    hide InnerStep;
    assert StepStart(s, s', t, Open(c, d)) && Disciplined(s, Open(c, d));
  }

  lemma OpenLocks(s: State, t: Tid, ch: Choice) returns (s': State)
    requires DeviceTable.Inv(s) && t in s.pcs && s.pcs[t].OChk? && Unlocked(s.rw)
    ensures InnerStep(s, s', t, ch) && s' == s.(rw := s'.rw) && ReadBy(s'.rw, t)
  {
    hide MutexInv, HandlesInv, RwLocks.Inv, Unlocked, Acquires;
    var l := AcquireAlone(s.rw, t, Shared);
    s' := s.(rw := l);
    assert StepAcquireRw(s, s', t);
    ReadingIsReadBy(l, t);
  }

  lemma OpenLooks(s: State, t: Tid, ch: Choice) returns (s': State)
    requires t in s.pcs && s.pcs[t].OChk? && ReadBy(s.rw, t)
    ensures InnerStep(s, s', t, ch)
    ensures s' == s.(pcs := s.pcs[t := OChkUn(s.pcs[t].c, s.pcs[t].d, HasConn(s.conns, s.pcs[t].c))])
  {
    hide OthersOut, HasConn;
    s' := Act(s, t, ch);
    assert StepAct(s, s', t, ch);
  }

  // ---------------------------------------------------------------- the two runs

  lemma ClosedWithoutEntry(s: State, d: Dev)
    requires DeviceTable.Inv(s) && (forall u :: u in s.pcs ==> Owns(s.pcs[u]).None?) && d !in s.table
    ensures !DeviceOpen(s, d)
  {
    hide DeviceTable.Inv;
    QuietHandles(s);
  }

  /** Connection 1 has opened its device, and then opens another one, which is not open and perhaps not
      even there. It is about to be told that it is open. Nothing was ever removed by force. */
  lemma AnsweredForAnotherDevice(other: Dev) returns (r: Trace, t: Tid)
    requires other != DEV
    ensures |r| > 0 && DisciplinedRun(r) && t in Last(r).pcs
    ensures Last(r).pcs[t] == OChkUn(1, other, true) && !DeviceOpen(Last(r), other) && Last(r).forced == {}
  {
    hide DeviceTable.Inv, CountInv, LockAlone, Unlocked, OncePerConn, InnerStep, StepStart, AfterOpen, DeviceOpen;
    t := 0;
    var s := Initial({0});
    r := [s];
    assert DisciplinedRun(r);
    hide DisciplinedRun;
    InOrder(r);
    QuietIsAlone(s, t);
    var q := SoloCallMatchesClass(s, t, Open(1, DEV), true);
    assert Disciplined(s, Open(1, DEV));
    assert DisciplinedNext(s, q[0]);
    ExtendOne(r, q[0]);
    assert q[0].forced == {} && q[0].pcs[t] == OChk(1, DEV) by { StartsOpening(s, q[0], t); }
    HarmlessSteps(q, t, Choice(true, None));
    r := Extend(r + [q[0]], q, t, Choice(true, None));
    FirstOpening(0);
    assert Last(r).conns[0].0 == 1;
    r := LookUp(r, t, 1, other);
    InOrder(r);
    ClosedWithoutEntry(Last(r), other);
  }

  lemma StartsOpening(s: State, s': State, t: Tid)
    requires s.forced == {} && StepStart(s, s', t, Open(1, DEV))
    ensures s'.forced == {} && t in s'.pcs && s'.pcs[t] == OChk(1, DEV)
  {
  }

  /** Two connections share a device that is lost and removed by force when one of them uses it. The
      other one opens it again, and is about to be told that it is open. */
  lemma AnsweredAfterForcedRemoval() returns (r: Trace, t: Tid)
    ensures |r| > 0 && DisciplinedRun(r) && t in Last(r).pcs
    ensures Last(r).pcs[t] == OChkUn(2, DEV, true) && Reg(Last(r).conns, 2, DEV) && !DeviceOpen(Last(r), DEV)
  {
    hide DeviceTable.Inv, CountInv, LockAlone, DisciplinedRun, InnerStep, StepStart, AfterSend, DeviceOpen;
    t := 2;
    var threads: set<Tid> := {0, 1, 2};
    r := TwoConnections(threads);
    var h: Handle :| ContentOf(Last(r)) == Content(map[DEV := Some(h)], BOTH);
    assert Disciplined(Last(r), Send(1, DEV)) by {
      assert BOTH[0] == (1, DEV);
    }
    InOrder(r);
    QuietIsAlone(Last(r), 0);
    r := CallAlone(r, 0, Send(1, DEV), false);
    DeviceLost(h);
    assert BOTH[1] == (2, DEV);
    assert HasConn(BOTH, 2);
    r := LookUp(r, t, 2, DEV);
    InOrder(r);
    ClosedWithoutEntry(Last(r), DEV);
  }
}
