/**
 Reference counting in the device table: when exactly is a device open?

 The runs considered obey the discipline of the connection layer: the calls of one connection
 are made one after another, a send comes from a connection registered for the device, and a
 close names the connection's own device or UINT32_MAX for "unknown". Interleavings, spurious
 wakeups and device failures are arbitrary, as in module DeviceTable.
*/
module DeviceRefCount {
  import opened Words
  import opened RwLocks
  import opened DeviceTable

  type Conns = seq<(ConnId, Dev)>

  predicate Reg(conns: Conns, c: ConnId, d: Dev) {
    (c, d) in conns
  }

  /** Connection `c` is registered for no device but `d`. */
  ghost predicate OnlyFor(conns: Conns, c: ConnId, d: Dev) {
    forall e: Dev :: Reg(conns, c, e) ==> e == d
  }

  ghost predicate Disciplined(s: State, call: Call) {
    && (forall u :: u in s.pcs && !s.pcs[u].Idle? ==> s.pcs[u].c != call.c)
    && (call.Close? && call.d != UINT32_MAX ==> OnlyFor(s.conns, call.c, call.d))
    && (call.Send? ==> Reg(s.conns, call.c, call.d))
  }

  ghost predicate DisciplinedNext(s: State, s': State) {
    || (exists t, ch :: InnerStep(s, s', t, ch))
    || (exists t, call :: StepStart(s, s', t, call) && Disciplined(s, call))
  }

  ghost predicate DisciplinedStepAt(r: seq<State>, i: nat)
    requires i + 1 < |r|
  {
    DisciplinedNext(r[i], r[i + 1])
  }

  ghost predicate DisciplinedRun(r: seq<State>) {
    && |r| > 0
    && (exists threads: set<Tid> :: |threads| < 0x1_0000_0000 && r[0] == Initial(threads))
    && forall i: nat :: i + 1 < |r| ==> DisciplinedStepAt(r, i)
  }

  // ---------------------------------------------------------------- phases of a call

  predicate HasTask(pc: Pc) {
    pc.MFind? || pc.MHitUn? || pc.MMissUn? || pc.MInsert? || pc.MInsertUn? || pc.MTake?
  }

  /** An open that has not registered its connection yet. */
  predicate Opening(pc: Pc) {
    || (HasTask(pc) && pc.k == ForOpen)
    || pc.OFind? || pc.OAddConn? || pc.OPlace? || pc.OTestNull? || pc.OCreateUn? || pc.OCreate? || pc.OSet? || pc.OSetConn?
  }

  predicate HasAfter(pc: Pc) {
    pc.UFind? || pc.UFindUn? || pc.URelease?
  }

  /** The answer an open is about to return. */
  function OpenResult(pc: Pc): Option<bool> {
    if pc.OClear? then Some(pc.made.Some?)
    else if pc.OUn? then Some(pc.ok)
    else if HasAfter(pc) && pc.a.Opened? then Some(pc.a.ok)
    else None
  }

  predicate IsOpen(pc: Pc) {
    pc.OChk? || pc.OChkUn? || Opening(pc) || OpenResult(pc).Some?
  }

  predicate Closing(pc: Pc) {
    (HasTask(pc) && pc.k.ForClose?) || pc.CErase?
  }

  predicate Sending(pc: Pc) {
    pc.SFind? || pc.SFindUn? || (HasTask(pc) && pc.k == ForSend) || pc.SUse? || pc.SIo?
  }

  predicate Forcing(pc: Pc) {
    || ((pc.CChk? || pc.CChkUn? || pc.CErase? || pc.CEraseUn? || pc.CLook? || pc.CTest?) && pc.force)
    || (HasTask(pc) && pc.k == ForClose(true))
  }

  /** The device is being destroyed because nobody is registered for it, or by force. */
  predicate Removing(pc: Pc) {
    pc.CKillUn? || pc.CKill? || pc.CNull? || pc.CDel?
  }

  /** A live handle may lack a registered connection while the mutex owner is here. */
  predicate CountsForOwner(pc: Pc) {
    pc.OSet? || pc.OSetConn? || pc.CEraseUn? || pc.CLook? || pc.CTest? || pc.CKillUn? || pc.CKill?
  }

  /** An entry may be null while the mutex owner is here. */
  predicate NullForOwner(pc: Pc) {
    pc.OTestNull? || pc.OCreateUn? || pc.OCreate? || pc.OSet? || pc.OClear? || pc.CDel?
  }

  // ---------------------------------------------------------------- invariant

  ghost predicate Serial(s: State) {
    forall t, u :: t in s.pcs && u in s.pcs && t != u && !s.pcs[t].Idle? && !s.pcs[u].Idle? && s.pcs[t].c == s.pcs[u].c
      ==> s.pcs[t].c == UINT32_MAX
  }

  /** At most one entry per connection, and none for the id that stands for "no connection". */
  ghost predicate OncePerConn(conns: Conns) {
    && (forall i, j :: 0 <= i < j < |conns| ==> conns[i].0 != conns[j].0)
    && !HasConn(conns, UINT32_MAX)
  }

  /** What a call in progress knows about the registration of its own connection. */
  ghost predicate ConnView(conns: Conns, pc: Pc) {
    && (pc.OChkUn? ==> (pc.found <==> HasConn(conns, pc.c)))
    && (Opening(pc) ==> !HasConn(conns, pc.c))
    && (OpenResult(pc).Some? ==> (OpenResult(pc).value <==> HasConn(conns, pc.c)))
    && (OpenResult(pc) == Some(true) ==> Reg(conns, pc.c, pc.d))
    && (IsOpen(pc) ==> pc.c != UINT32_MAX)
    && ((pc.CChk? || pc.CChkUn?) && pc.d != UINT32_MAX ==> OnlyFor(conns, pc.c, pc.d))
    && (pc.CChkUn? && HasConn(conns, pc.c) ==> Reg(conns, pc.c, pc.registered))
    && (Closing(pc) ==> OnlyFor(conns, pc.c, pc.d))
    && (Sending(pc) ==> Reg(conns, pc.c, pc.d))
  }

  /** The device that a forced removal is about, once its connection was looked up. */
  ghost predicate ForcesKnown(s: State, pc: Pc)
    requires Forcing(pc)
  {
    if pc.CChk? then pc.c == UINT32_MAX && RemovedByForce(pc.d) in s.forced
    else if pc.CChkUn? && pc.d == UINT32_MAX then pc.registered in s.forced
    else pc.d in s.forced
  }

  /** What holds of the devices that were never removed by force. */
  ghost predicate UnforcedView(s: State, pc: Pc) {
    && (Forcing(pc) ==> ForcesKnown(s, pc))
    && (Removing(pc) && pc.d !in s.forced ==> !HasDevice(s.conns, pc.d))
    && (pc.OAddConn? && pc.d !in s.forced ==> Entry(s.table, pc.d).Some?)
  }

  ghost predicate OwnerAt(s: State, d: Dev, p: Pc -> bool) {
    d in s.mutexes && s.mutexes[d].Some? && s.mutexes[d].value in s.pcs && p(s.pcs[s.mutexes[d].value])
  }

  ghost predicate DeviceOpen(s: State, d: Dev) {
    exists h: Handle :: IsLive(s, h, d)
  }

  ghost predicate DeviceCounted(s: State, d: Dev) {
    && (DeviceOpen(s, d) ==> HasDevice(s.conns, d) || OwnerAt(s, d, CountsForOwner))
    && (d !in s.forced && HasDevice(s.conns, d) ==> Entry(s.table, d).Some?)
    && (d !in s.forced && EntryIs(s, d, None) ==> OwnerAt(s, d, NullForOwner))
  }

  ghost predicate CountInv(s: State) {
    && Serial(s)
    && OncePerConn(s.conns)
    && (forall t :: t in s.pcs ==> ConnView(s.conns, s.pcs[t]) && UnforcedView(s, s.pcs[t]))
    && (forall d :: DeviceCounted(s, d))
  }

  lemma InitialCountInv(threads: set<Tid>)
    ensures CountInv(Initial(threads))
  {
  }

  // ---------------------------------------------------------------- the connection list

  lemma HasConnIff(conns: Conns, c: ConnId)
    ensures HasConn(conns, c) <==> exists d: Dev :: Reg(conns, c, d)
  {
    if HasConn(conns, c) {
      var i :| 0 <= i < |conns| && conns[i].0 == c;
      assert conns[i] == (c, conns[i].1);
      assert Reg(conns, c, conns[i].1);
    }
    if d: Dev :| Reg(conns, c, d) {
      var i :| 0 <= i < |conns| && conns[i] == (c, d);
    }
  }

  lemma HasDeviceIff(conns: Conns, d: Dev)
    ensures HasDevice(conns, d) <==> exists c: ConnId :: Reg(conns, c, d)
  {
    if HasDevice(conns, d) {
      var i :| 0 <= i < |conns| && conns[i].1 == d;
      assert conns[i] == (conns[i].0, d);
      assert Reg(conns, conns[i].0, d);
    }
    if c: ConnId :| Reg(conns, c, d) {
      var i :| 0 <= i < |conns| && conns[i] == (c, d);
    }
  }

  lemma Added(conns: Conns, c: ConnId, d: Dev)
    ensures forall x: ConnId, e: Dev :: Reg(conns + [(c, d)], x, e) <==> Reg(conns, x, e) || (x == c && e == d)
    ensures OncePerConn(conns) && !HasConn(conns, c) && c != UINT32_MAX ==> OncePerConn(conns + [(c, d)])
  {
  }

  /** Erasing the first entry of a connection erases its only entry and nothing else. */
  lemma Erased(conns: Conns, c: ConnId)
    requires OncePerConn(conns)
    ensures OncePerConn(EraseFirst(conns, c))
    ensures forall x: ConnId, e: Dev :: Reg(EraseFirst(conns, c), x, e) <==> Reg(conns, x, e) && x != c
  {
    var i, out := FirstOf(conns, c), EraseFirst(conns, c);
    if i < |conns| {
      assert conns == conns[..i] + [conns[i]] + conns[i + 1..];
      assert forall j :: 0 <= j < |out| ==> out[j] == conns[if j < i then j else j + 1];
      forall x: ConnId, e: Dev ensures Reg(out, x, e) <==> Reg(conns, x, e) && x != c {
        ErasedAt(conns, i, x, e);
      }
    }
  }

  lemma ErasedAt(conns: Conns, i: nat, x: ConnId, e: Dev)
    requires OncePerConn(conns) && i < |conns|
    ensures Reg(conns[..i] + conns[i + 1..], x, e) <==> Reg(conns, x, e) && x != conns[i].0
  {
    assert conns == conns[..i] + [conns[i]] + conns[i + 1..];
    if Reg(conns[..i] + conns[i + 1..], x, e) {
      var j :| 0 <= j < |conns| && j != i && conns[j] == (x, e);
    }
    if Reg(conns, x, e) && x != conns[i].0 {
      var j :| 0 <= j < |conns| && conns[j] == (x, e);
    }
  }

  lemma OnlyEntry(conns: Conns, c: ConnId, d: Dev)
    requires OncePerConn(conns) && (HasConn(conns, c) ==> Reg(conns, c, d))
    ensures OnlyFor(conns, c, d)
  {
    HasConnIff(conns, c);
  }

  lemma DeviceOfIs(conns: Conns, c: ConnId)
    requires HasConn(conns, c)
    ensures Reg(conns, c, DeviceOf(conns, c))
  {
    var i := FirstOf(conns, c);
    assert i < |conns| && conns[i] == (c, conns[i].1);
  }

  /** Registrations of connection `c` did not change. */
  ghost predicate SameConn(conns: Conns, conns': Conns, c: ConnId) {
    forall d: Dev :: Reg(conns', c, d) <==> Reg(conns, c, d)
  }

  lemma ConnViewKept(conns: Conns, conns': Conns, pc: Pc)
    requires ConnView(conns, pc) && (pc.Idle? || SameConn(conns, conns', pc.c))
    ensures ConnView(conns', pc)
  {
    if !pc.Idle? {
      HasConnIff(conns, pc.c);
      HasConnIff(conns', pc.c);
    }
  }

  // ---------------------------------------------------------------- program counters

  /** What a release of the table lock turns a program counter into, as far as counting goes. */
  lemma RwLeaveViews(s: State, pc: Pc)
    requires ConnView(s.conns, pc) && UnforcedView(s, pc) && RwLeaves(pc) && OncePerConn(s.conns)
    ensures ConnView(s.conns, AfterRwLeave(pc)) && UnforcedView(s, AfterRwLeave(pc))
    ensures CountsForOwner(pc) ==> CountsForOwner(AfterRwLeave(pc))
    ensures NullForOwner(pc) ==> NullForOwner(AfterRwLeave(pc))
    ensures AfterRwLeave(pc).Idle? || (!pc.Idle? && AfterRwLeave(pc).c == pc.c)
  {
    hide OncePerConn, HasDevice, HasConn, OnlyFor, Reg;
    if pc.CChkUn? && pc.d == UINT32_MAX {
      OnlyEntry(s.conns, pc.c, pc.registered);
    }
  }

  lemma PoolLeaveViews(s: State, pc: Pc)
    requires ConnView(s.conns, pc) && UnforcedView(s, pc) && PoolHeld(pc) && OwnerView(s, pc)
    ensures ConnView(s.conns, AfterPoolLeave(pc)) && UnforcedView(s, AfterPoolLeave(pc))
    ensures CountsForOwner(pc) ==> CountsForOwner(AfterPoolLeave(pc))
    ensures NullForOwner(pc) ==> NullForOwner(AfterPoolLeave(pc))
    ensures AfterPoolLeave(pc).Idle? || (!pc.Idle? && AfterPoolLeave(pc).c == pc.c)
  {
    hide HasDevice, HasConn, OnlyFor, Reg;
  }

  // ---------------------------------------------------------------- steps that only move a counter

  /** A step that changes nothing but locks and one program counter. */
  ghost predicate QuietStep(s: State, s': State, t: Tid) {
    && s' == s.(rw := s'.rw, poolRw := s'.poolRw, pcs := s'.pcs)
    && t in s.pcs && t in s'.pcs && s'.pcs == s.pcs[t := s'.pcs[t]]
  }

  lemma SerialKept(s: State, s': State, t: Tid)
    requires Serial(s) && t in s.pcs && t in s'.pcs && s'.pcs == s.pcs[t := s'.pcs[t]]
    requires s'.pcs[t].Idle? || s'.pcs[t].c == UINT32_MAX || (!s.pcs[t].Idle? && s'.pcs[t].c == s.pcs[t].c)
             || (forall u :: u in s.pcs && !s.pcs[u].Idle? ==> s.pcs[u].c != s'.pcs[t].c)
    ensures Serial(s')
  {
    forall u, v | u in s'.pcs && v in s'.pcs && u != v && !s'.pcs[u].Idle? && !s'.pcs[v].Idle? && s'.pcs[u].c == s'.pcs[v].c
      ensures s'.pcs[u].c == UINT32_MAX
    {
      var other := if u == t then v else u;
      assert s'.pcs[other] == s.pcs[other];
      if t == u || t == v {
      } else {
        assert s.pcs[u].c == s.pcs[v].c;
      }
    }
  }

  lemma QuietStepKeepsDevice(s: State, s': State, t: Tid, d: Dev)
    requires QuietStep(s, s', t) && DeviceCounted(s, d)
    requires CountsForOwner(s.pcs[t]) ==> CountsForOwner(s'.pcs[t])
    requires NullForOwner(s.pcs[t]) ==> NullForOwner(s'.pcs[t])
    ensures DeviceCounted(s', d)
  {
    hide CountsForOwner, NullForOwner, HasDevice;
    assert OwnerAt(s, d, CountsForOwner) ==> OwnerAt(s', d, CountsForOwner);
    assert OwnerAt(s, d, NullForOwner) ==> OwnerAt(s', d, NullForOwner);
    assert DeviceOpen(s', d) ==> DeviceOpen(s, d) by {
      if h: Handle :| IsLive(s', h, d) { assert IsLive(s, h, d); }
    }
  }

  lemma QuietStepKeepsCount(s: State, s': State, t: Tid)
    requires CountInv(s) && QuietStep(s, s', t) && Serial(s')
    requires ConnView(s.conns, s'.pcs[t]) && UnforcedView(s, s'.pcs[t])
    requires CountsForOwner(s.pcs[t]) ==> CountsForOwner(s'.pcs[t])
    requires NullForOwner(s.pcs[t]) ==> NullForOwner(s'.pcs[t])
    ensures CountInv(s')
  {
    hide CountsForOwner, NullForOwner, ConnView, DeviceCounted, OncePerConn, Serial;
    forall d ensures DeviceCounted(s', d) {
      QuietStepKeepsDevice(s, s', t, d);
    }
    forall u | u in s'.pcs ensures ConnView(s'.conns, s'.pcs[u]) && UnforcedView(s', s'.pcs[u]) {
      assert u == t || s'.pcs[u] == s.pcs[u];
    }
  }

  lemma LockStepKeepsCount(s: State, s': State, t: Tid)
    requires DeviceTable.Inv(s) && CountInv(s)
    requires StepAcquireRw(s, s', t) || StepAcquirePool(s, s', t) || StepSpurious(s, s', t)
    ensures CountInv(s')
  {
    LockStepIsPcStep(s, s', t);
    hide ConnView, UnforcedView, DeviceCounted, OncePerConn, DeviceTable.Inv, StepAcquireRw, StepAcquirePool,
         StepSpurious;
    assert QuietStep(s, s', t);
    SerialKept(s, s', t);
    QuietStepKeepsCount(s, s', t);
  }

  lemma LeaveKeepsCount(s: State, s': State, t: Tid, ch: Choice)
    requires DeviceTable.Inv(s) && CountInv(s)
    requires StepLeaveRw(s, s', t, ch) || StepLeavePool(s, s', t, ch)
    ensures CountInv(s')
  {
    ViewOf(s, t);
    hide DeviceTable.Inv, DeviceCounted, ConnView, UnforcedView, OncePerConn, OwnerView, LeaveStep,
         AfterRwLeave, AfterPoolLeave;
    if StepLeaveRw(s, s', t, ch) {
      RwLeaveViews(s, s.pcs[t]);
    } else {
      PoolLeaveViews(s, s.pcs[t]);
    }
    SerialKept(s, s', t);
    QuietStepKeepsCount(s, s', t);
  }

  lemma StartKeepsCount(s: State, s': State, t: Tid, call: Call)
    requires CountInv(s) && StepStart(s, s', t, call) && Disciplined(s, call)
    ensures CountInv(s')
  {
    hide DeviceCounted, OncePerConn, HasConn, HasDevice;
    SerialKept(s, s', t);
    hide Serial;
    QuietStepKeepsCount(s, s', t);
  }

  // ---------------------------------------------------------------- operations

  lemma NextPcConn(s: State, pc: Pc, ch: Choice)
    requires !pc.Idle?
    ensures var pc' := NextPc(s, pc, ch);
            pc'.Idle? || pc'.c == pc.c || (pc'.CChk? && pc'.c == UINT32_MAX)
  {
  }

  /** An operation changes the registrations of its own connection only. */
  lemma ConnsElsewhere(conns: Conns, pc: Pc, c: ConnId)
    requires OncePerConn(conns) && ConnView(conns, pc) && (pc.Idle? || pc.c != c || c == UINT32_MAX)
    ensures SameConn(conns, ConnsAfter(conns, pc), c)
    ensures OncePerConn(ConnsAfter(conns, pc))
  {
    hide OncePerConn;
    if pc.OAddConn? || pc.OSetConn? {
      Added(conns, pc.c, pc.d);
    } else if pc.CErase? {
      Erased(conns, pc.c);
      if pc.c == c {
        HasConnIff(conns, c);
        NoMax(conns);
      }
    }
  }

  lemma NoMax(conns: Conns)
    requires OncePerConn(conns)
    ensures !HasConn(conns, UINT32_MAX)
  {
  }

  /** Operations that leave the registrations alone and stay within a phase of the call. */
  lemma PlainActConnView(s: State, pc: Pc, ch: Choice)
    requires ConnView(s.conns, pc) && OwnerView(s, pc)
    requires !RwLeaves(pc) && !PoolHeld(pc)
    requires !pc.OAddConn? && !pc.OSetConn? && !pc.CErase? && !pc.CChk? && !pc.URelease?
    ensures ConnView(s.conns, NextPc(s, pc, ch))
  {
    hide HasConn, HasDevice, Reg, OnlyFor;
  }

  lemma RegisterConnView(conns: Conns, c: ConnId, d: Dev, pc: Pc)
    requires (pc.OClear? && pc.made.Some?) || (pc.OUn? && pc.ok)
    requires pc.c == c && pc.d == d && c != UINT32_MAX
    ensures ConnView(conns + [(c, d)], pc)
  {
    Added(conns, c, d);
    HasConnIff(conns + [(c, d)], c);
    assert Reg(conns + [(c, d)], c, d);
  }

  lemma ForceConnView(conns: Conns, d: Dev)
    requires OncePerConn(conns)
    ensures ConnView(conns, CChk(UINT32_MAX, d, true))
  {
    NoMax(conns);
    HasConnIff(conns, UINT32_MAX);
  }

  lemma ActConnView(s: State, pc: Pc, ch: Choice)
    requires OncePerConn(s.conns) && ConnView(s.conns, pc) && OwnerView(s, pc)
    requires !RwLeaves(pc) && !PoolHeld(pc)
    ensures ConnView(ConnsAfter(s.conns, pc), NextPc(s, pc, ch))
  {
    hide OncePerConn, HasDevice, OwnerView, Reg, HasConn, OnlyFor;
    if pc.OAddConn? || pc.OSetConn? {
      RegisterConnView(s.conns, pc.c, pc.d, NextPc(s, pc, ch));
    } else if pc.CChk? {
      if HasConn(s.conns, pc.c) { DeviceOfIs(s.conns, pc.c); }
    } else if pc.URelease? {
      ForceConnView(s.conns, pc.d);
    } else if !pc.CErase? {
      hide ConnView, NextPc;
      PlainActConnView(s, pc, ch);
    }
  }

  // ---------------------------------------------------------------- counting, at the device worked on

  /** `DeviceCounted` for a device whose mutex owner stands at `pc`. */
  ghost predicate CountHere(s: State, d: Dev, pc: Pc) {
    && (DeviceOpen(s, d) ==> HasDevice(s.conns, d) || CountsForOwner(pc))
    && (d !in s.forced && HasDevice(s.conns, d) ==> Entry(s.table, d).Some?)
    && (d !in s.forced && EntryIs(s, d, None) ==> NullForOwner(pc))
  }

  lemma CountHereIs(s: State, d: Dev, t: Tid)
    requires OwnedBy(s, d, t) && t in s.pcs
    ensures CountHere(s, d, s.pcs[t]) <==> DeviceCounted(s, d)
  {
    hide CountsForOwner, NullForOwner, HasDevice, DeviceOpen;
  }

  lemma DeviceAdded(conns: Conns, c: ConnId, d: Dev, e: Dev)
    ensures HasDevice(conns + [(c, d)], e) <==> HasDevice(conns, e) || e == d
  {
    var out := conns + [(c, d)];
    assert out[|conns|] == (c, d);
    assert forall i :: 0 <= i < |conns| ==> out[i] == conns[i];
  }

  lemma DeviceErased(conns: Conns, c: ConnId, e: Dev)
    requires OncePerConn(conns)
    ensures HasDevice(EraseFirst(conns, c), e) ==> HasDevice(conns, e)
    ensures HasDevice(conns, e) && !Reg(conns, c, e) ==> HasDevice(EraseFirst(conns, c), e)
  {
    HasDeviceIff(conns, e);
    HasDeviceIff(EraseFirst(conns, c), e);
    Erased(conns, c);
  }

  /** Nothing is live for a device whose entry is absent or null, unless its owner is placing it. */
  lemma ClosedWithoutHandle(s: State, d: Dev, pc: Pc)
    requires DeviceHere(s, d, pc) && Entry(s.table, d) == None
    requires pc.OSet? ==> pc.made == None
    ensures !DeviceOpen(s, d)
  {
  }

  /** Destroying the stored handle leaves the device closed. */
  lemma ClosedByKill(s: State, s': State, d: Dev, pc: Pc)
    requires DeviceHere(s, d, pc) && pc.CKill? && Entry(s.table, d).Some?
    requires s'.live == s.live - {s.table[d].value}
    ensures !DeviceOpen(s', d)
  {
    if h: Handle :| IsLive(s', h, d) {
      assert IsLive(s, h, d);
    }
  }

  lemma ActCountsOpened(s: State, t: Tid, ch: Choice, d: Dev, pc: Pc, s': State)
    requires CanAct(s, t) && s.pcs[t] == pc && s' == Act(s, t, ch) && Owns(pc) == Some(d)
    requires OwnerView(s, pc) && DeviceHere(s, d, pc) && CountHere(s, d, pc) && OncePerConn(s.conns)
    ensures DeviceOpen(s', d) ==> HasDevice(s'.conns, d) || CountsForOwner(NextPc(s, pc, ch))
  {
    hide HasDevice, OncePerConn, DeviceOpen, DeviceHere;
    if (pc.OSet? && pc.made == None) || pc.CLook? || pc.CKill? {
      if Entry(s.table, d) == None {
        ClosedWithoutHandle(s, d, pc);
      } else if pc.CKill? {
        ClosedByKill(s, s', d, pc);
      }
    }
    if pc.OSetConn? || pc.OAddConn? {
      DeviceAdded(s.conns, pc.c, d, d);
    }
    if !pc.OCreate? {
      OpenedKept(s, s', d);
    }
  }

  lemma OpenedKept(s: State, s': State, d: Dev)
    requires forall h: Handle :: IsLive(s', h, d) ==> IsLive(s, h, d)
    ensures DeviceOpen(s', d) ==> DeviceOpen(s, d)
  {
  }

  lemma ActCountsEntries(s: State, t: Tid, ch: Choice, d: Dev, pc: Pc, s': State)
    requires CanAct(s, t) && s.pcs[t] == pc && s' == Act(s, t, ch) && Owns(pc) == Some(d)
    requires OwnerView(s, pc) && CountHere(s, d, pc) && OncePerConn(s.conns)
    requires UnforcedView(s, pc) && ConnView(s.conns, pc) && d !in s'.forced
    ensures HasDevice(s'.conns, d) ==> Entry(s'.table, d).Some?
    ensures EntryIs(s', d, None) ==> NullForOwner(NextPc(s, pc, ch))
  {
    HasDeviceIff(s.conns, d);
    hide HasDevice, HasConn, OncePerConn, DeviceOpen, OnlyFor;
    if pc.OSetConn? || pc.OAddConn? {
      DeviceAdded(s.conns, pc.c, d, d);
    } else if pc.CErase? {
      DeviceErased(s.conns, pc.c, d);
    } else if pc.SUse? {
      assert Reg(s.conns, pc.c, d);
    }
  }

  /** Connection UINT32_MAX is registered for nothing, so its device is looked up as device 0. */
  lemma UnknownDevice(conns: Conns)
    requires OncePerConn(conns)
    ensures DeviceTable.DeviceOf(conns, UINT32_MAX) == 0
  {
    NoMax(conns);
  }

  lemma ForcingStaysKnown(s: State, pc: Pc, ch: Choice, s': State)
    requires Forcing(pc) ==> ForcesKnown(s, pc)
    requires pc.CChk? && pc.c == UINT32_MAX ==> DeviceTable.DeviceOf(s.conns, pc.c) == 0
    requires s.forced <= s'.forced && (pc.URelease? && pc.a == RemoveByForce ==> RemovedByForce(pc.d) in s'.forced)
    ensures Forcing(NextPc(s, pc, ch)) && !pc.Idle? ==> ForcesKnown(s', NextPc(s, pc, ch))
  {
    hide HasDevice, HasConn, DeviceTable.DeviceOf, Entry;
  }

  /** What the owner of a device mutex knows stays right across its own operation. */
  lemma ActUnforcedView(s: State, t: Tid, ch: Choice, pc: Pc, s': State)
    requires CanAct(s, t) && s.pcs[t] == pc && s' == Act(s, t, ch)
    requires UnforcedView(s, pc) && OncePerConn(s.conns)
    requires Owns(pc).Some? ==> CountHere(s, Owns(pc).value, pc)
    ensures UnforcedView(s', NextPc(s, pc, ch))
  {
    UnknownDevice(s.conns);
    ForcingStaysKnown(s, pc, ch, s');
    ActKeepsUnregistered(s, t, ch, pc, s');
    hide Act, CanAct, CountHere, Forcing, ForcesKnown, Removing, HasDevice, NextPc, Owns, OncePerConn;
  }

  lemma ActKeepsUnregistered(s: State, t: Tid, ch: Choice, pc: Pc, s': State)
    requires CanAct(s, t) && s.pcs[t] == pc && s' == Act(s, t, ch)
    requires UnforcedView(s, pc)
    requires Owns(pc).Some? ==> CountHere(s, Owns(pc).value, pc)
    ensures var pc' := NextPc(s, pc, ch);
            && (Removing(pc') && pc'.d !in s'.forced ==> !HasDevice(s'.conns, pc'.d))
            && (pc'.OAddConn? && pc'.d !in s'.forced ==> Entry(s'.table, pc'.d).Some?)
  {
    if pc.CTest? && pc.force {
      ForcingAtTest(s, pc);
    }
    hide HasDevice, DeviceOpen, Forcing, ForcesKnown;
  }

  lemma ForcingAtTest(s: State, pc: Pc)
    requires UnforcedView(s, pc) && pc.CTest? && pc.force
    ensures pc.d in s.forced
  {
  }

  // ---------------------------------------------------------------- counting, elsewhere

  /** An operation neither adds nor loses registrations for a device that another thread owns. */
  lemma DevicesElsewhere(conns: Conns, pc: Pc, e: Dev)
    requires OncePerConn(conns) && ConnView(conns, pc) && Owns(pc) != Some(e)
    ensures HasDevice(ConnsAfter(conns, pc), e) <==> HasDevice(conns, e)
  {
    hide OncePerConn, HasDevice, HasConn;
    if pc.OAddConn? || pc.OSetConn? {
      DeviceAdded(conns, pc.c, pc.d, e);
    } else if pc.CErase? {
      DeviceErased(conns, pc.c, e);
    }
  }

  lemma OthersUnforcedView(s: State, s': State, pc: Pc)
    requires UnforcedView(s, pc) && s.forced <= s'.forced
    requires Owns(pc).Some? ==>
      SameDevice(s, s', Owns(pc).value) && (HasDevice(s'.conns, Owns(pc).value) <==> HasDevice(s.conns, Owns(pc).value))
    ensures UnforcedView(s', pc)
  {
    hide HasDevice;
  }

  lemma CountElsewhere(s: State, s': State, t: Tid, d: Dev)
    requires DeviceCounted(s, d) && SameDevice(s, s', d) && s.forced <= s'.forced
    requires HasDevice(s'.conns, d) <==> HasDevice(s.conns, d)
    requires t in s.pcs && t in s'.pcs && s'.pcs == s.pcs[t := s'.pcs[t]] && !OwnedBy(s, d, t)
    requires forall u :: u != t && OwnedBy(s, d, u) ==> OwnedBy(s', d, u)
    ensures DeviceCounted(s', d)
  {
    hide HasDevice, CountsForOwner, NullForOwner;
    OpenedKept(s, s', d);
    hide DeviceOpen;
    if d in s.mutexes && s.mutexes[d].Some? {
      assert OwnedBy(s, d, s.mutexes[d].value);
    }
    assert OwnerAt(s, d, CountsForOwner) ==> OwnerAt(s', d, CountsForOwner);
    assert OwnerAt(s, d, NullForOwner) ==> OwnerAt(s', d, NullForOwner);
  }

  // ---------------------------------------------------------------- every disciplined step

  lemma ActKeepsDeviceCount(s: State, t: Tid, ch: Choice, e: Dev)
    requires DeviceTable.Inv(s) && CountInv(s) && CanAct(s, t)
    ensures DeviceCounted(Act(s, t, ch), e)
    ensures Owns(s.pcs[t]) != Some(e) ==> (HasDevice(Act(s, t, ch).conns, e) <==> HasDevice(s.conns, e))
  {
    var pc, s' := s.pcs[t], Act(s, t, ch);
    assert ConnView(s.conns, pc) && UnforcedView(s, pc) && DeviceCounted(s, e);
    ViewOf(s, t);
    if Owns(pc) == Some(e) {
      OwnedDevice(s, t, e);
      hide LocksInv, MutexInv, HandlesInv, CountInv, ConnView, UnforcedView, OwnerView, DeviceHere, CountHere, CanAct;
      CountHereIs(s, e, t);
      CountHereAfter(s, t, ch, e, pc, s');
    } else {
      hide LocksInv, HandlesInv, ConnView, UnforcedView, OwnerView, Serial, HasDevice;
      ActKeepsDevice(s, t, ch, e);
      DevicesElsewhere(s.conns, pc, e);
      OwnersKept(s, t, ch, e);
      CountElsewhere(s, s', t, e);
    }
  }

  lemma OwnedDevice(s: State, t: Tid, d: Dev)
    requires DeviceTable.Inv(s) && t in s.pcs && Owns(s.pcs[t]) == Some(d)
    ensures OwnedBy(s, d, t) && DeviceHere(s, d, s.pcs[t])
  {
    hide LocksInv;
    assert OwnedBy(s, d, t) && DeviceInv(s, d);
    DeviceHereIs(s, d, t);
  }

  lemma CountHereAfter(s: State, t: Tid, ch: Choice, d: Dev, pc: Pc, s': State)
    requires CanAct(s, t) && s.pcs[t] == pc && s' == Act(s, t, ch) && Owns(pc) == Some(d) && OwnedBy(s, d, t)
    requires OwnerView(s, pc) && DeviceHere(s, d, pc) && CountHere(s, d, pc) && OncePerConn(s.conns)
    requires UnforcedView(s, pc) && ConnView(s.conns, pc)
    ensures DeviceCounted(s', d)
  {
    ActCountsOpened(s, t, ch, d, pc, s');
    if d !in s'.forced {
      ActCountsEntries(s, t, ch, d, pc, s');
    }
    NextPcOwns(s, pc, ch);
    hide HasDevice, OncePerConn, UnforcedView, ConnView, OwnerView, DeviceHere, DeviceOpen, HasConn;
    if pc.URelease? {
      assert !CountsForOwner(NextPc(s, pc, ch)) && !NullForOwner(NextPc(s, pc, ch));
    } else {
      hide NextPc;
      assert CountHere(s', d, s'.pcs[t]) && OwnedBy(s', d, t);
      CountHereIs(s', d, t);
    }
  }

  lemma ThreadViews(s: State, t: Tid)
    requires CountInv(s) && t in s.pcs
    ensures ConnView(s.conns, s.pcs[t]) && UnforcedView(s, s.pcs[t])
  {
  }

  lemma ActKeepsConnViews(s: State, t: Tid, ch: Choice, u: Tid)
    requires DeviceTable.Inv(s) && CountInv(s) && CanAct(s, t) && u in s.pcs
    ensures ConnView(Act(s, t, ch).conns, Act(s, t, ch).pcs[u])
  {
    hide LocksInv, MutexInv, HandlesInv, ConnView, UnforcedView, OwnerView, DeviceCounted, OncePerConn;
    ViewOf(s, t);
    ThreadViews(s, t);
    ThreadViews(s, u);
    if u == t {
      ActConnView(s, s.pcs[t], ch);
    } else {
      if !s.pcs[u].Idle? {
        ConnsElsewhere(s.conns, s.pcs[t], s.pcs[u].c);
      }
      ConnViewKept(s.conns, ConnsAfter(s.conns, s.pcs[t]), s.pcs[u]);
    }
  }

  lemma ActKeepsUnforcedViews(s: State, t: Tid, ch: Choice, u: Tid)
    requires DeviceTable.Inv(s) && CountInv(s) && CanAct(s, t) && u in s.pcs
    ensures UnforcedView(Act(s, t, ch), Act(s, t, ch).pcs[u])
  {
    hide LocksInv, HandlesInv, ConnView, UnforcedView, OwnerView, OncePerConn, Serial, MutexInv;
    ThreadViews(s, t);
    ThreadViews(s, u);
    if u == t {
      if Owns(s.pcs[t]).Some? {
        var d := Owns(s.pcs[t]).value;
        OwnedDevice(s, t, d);
        assert DeviceCounted(s, d);
        CountHereIs(s, d, t);
      }
      hide CountInv, DeviceCounted, CanAct;
      ActUnforcedView(s, t, ch, s.pcs[t], Act(s, t, ch));
    } else {
      hide CountInv, DeviceCounted;
      if Owns(s.pcs[u]).Some? {
        OwnersDiffer(s, t, u);
        ActKeepsDevice(s, t, ch, Owns(s.pcs[u]).value);
        ActKeepsDeviceCount(s, t, ch, Owns(s.pcs[u]).value);
      }
      OthersUnforcedView(s, Act(s, t, ch), s.pcs[u]);
    }
  }

  lemma ActKeepsConns(s: State, t: Tid, ch: Choice)
    requires CountInv(s) && CanAct(s, t)
    ensures OncePerConn(Act(s, t, ch).conns) && Serial(Act(s, t, ch))
  {
    assert ConnView(s.conns, s.pcs[t]);
    hide ConnView, UnforcedView, DeviceCounted, OncePerConn;
    ConnsElsewhere(s.conns, s.pcs[t], UINT32_MAX);
    NextPcConn(s, s.pcs[t], ch);
    SerialKept(s, Act(s, t, ch), t);
  }

  lemma ActKeepsThreadViews(s: State, t: Tid, ch: Choice)
    requires DeviceTable.Inv(s) && CountInv(s) && CanAct(s, t)
    ensures forall u :: u in Act(s, t, ch).pcs ==>
              ConnView(Act(s, t, ch).conns, Act(s, t, ch).pcs[u]) && UnforcedView(Act(s, t, ch), Act(s, t, ch).pcs[u])
  {
    ActShape(s, t, ch);
    hide DeviceTable.Inv, CountInv, Act, CanAct, ConnView, UnforcedView;
    forall u | u in Act(s, t, ch).pcs
      ensures ConnView(Act(s, t, ch).conns, Act(s, t, ch).pcs[u]) && UnforcedView(Act(s, t, ch), Act(s, t, ch).pcs[u])
    {
      ActKeepsConnViews(s, t, ch, u);
      ActKeepsUnforcedViews(s, t, ch, u);
    }
  }

  lemma ActKeepsDeviceCounts(s: State, t: Tid, ch: Choice)
    requires DeviceTable.Inv(s) && CountInv(s) && CanAct(s, t)
    ensures forall d :: DeviceCounted(Act(s, t, ch), d)
  {
    hide *;
    forall d ensures DeviceCounted(Act(s, t, ch), d) {
      ActKeepsDeviceCount(s, t, ch, d);
    }
  }

  lemma ActKeepsCount(s: State, t: Tid, ch: Choice)
    requires DeviceTable.Inv(s) && CountInv(s) && CanAct(s, t)
    ensures CountInv(Act(s, t, ch))
  {
    hide DeviceTable.Inv, Act, CanAct, ConnView, UnforcedView, DeviceCounted, OncePerConn, Serial;
    ActKeepsConns(s, t, ch);
    ActKeepsThreadViews(s, t, ch);
    ActKeepsDeviceCounts(s, t, ch);
  }

  lemma DisciplinedNextKeepsInv(s: State, s': State)
    requires DeviceTable.Inv(s) && CountInv(s) && DisciplinedNext(s, s')
    ensures DeviceTable.Inv(s') && CountInv(s')
  {
    hide DeviceTable.Inv, CountInv, CanAct, Act, StepAcquireRw, StepAcquirePool, StepSpurious, StepLeaveRw,
         StepLeavePool, StepStart, Disciplined;
    if t, ch :| InnerStep(s, s', t, ch) {
      InnerStepKeepsInv(s, s', t, ch);
      if StepAct(s, s', t, ch) {
        ActKeepsCount(s, t, ch);
      } else if StepLeaveRw(s, s', t, ch) || StepLeavePool(s, s', t, ch) {
        LeaveKeepsCount(s, s', t, ch);
      } else {
        LockStepKeepsCount(s, s', t);
      }
    } else {
      var t, call :| StepStart(s, s', t, call) && Disciplined(s, call);
      DeviceTable.StartKeepsInv(s, s', t, call);
      StartKeepsCount(s, s', t, call);
    }
  }
}
