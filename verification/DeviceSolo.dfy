/**
 The two models of the device table agree: in the step machine of module DeviceTable, a call that
 runs alone finishes, and leaves the table and the connection list as the methods of module
 DeviceMaps leave them.
*/
module DeviceSolo {
  import opened Words
  import opened RwLocks
  import opened DeviceTable
  import opened DeviceMaps

  function ContentOf(s: State): Content {
    Content(s.table, s.conns)
  }

  // ---------------------------------------------------------------- the rest of a call

  function Register(s: Content, c: ConnId, d: Dev): Content {
    s.(conns := s.conns + [(c, d)])
  }

  function Without(s: Content, d: Dev): Content {
    s.(table := s.table - {d})
  }

  function Stored(s: Content, c: ConnId, d: Dev, made: Option<Handle>): Content {
    if made.Some? then Content(s.table[d := made], s.conns + [(c, d)]) else Without(s, d)
  }

  function OpenRest(s: Content, c: ConnId, d: Dev, made: Option<Handle>): Content {
    if d in s.table then Register(s, c, d) else if made.Some? then Stored(s, c, d, made) else s
  }

  function DropRest(s: Content, d: Dev, force: bool): Content {
    if d in s.table && (force || !HasDevice(s.conns, d)) then Without(s, d) else s
  }

  function CloseRest(s: Content, c: ConnId, d: Dev, force: bool): Content {
    DropRest(s.(conns := EraseFirst(s.conns, c)), d, force)
  }

  function SendRest(s: Content, d: Dev, present: bool): Content {
    var e := Entry(s.table, d);
    if e.Some? && present then s.(table := s.table[d := e]) else AfterRemove(s.(table := s.table[d := e]), UINT32_MAX, d, true)
  }

  function TaskRest(s: Content, c: ConnId, d: Dev, k: Task, made: Option<Handle>, present: bool): Content {
    match k
    case ForOpen => OpenRest(s, c, d, made)
    case ForClose(force) => CloseRest(s, c, d, force)
    case ForSend => SendRest(s, d, present)
  }

  function EndRest(s: Content, d: Dev, a: After): Content {
    if a == RemoveByForce then AfterRemove(s, UINT32_MAX, d, true) else s
  }

  /** What the table and the list will be when a call that stands at `pc` has run to its end;
      `next` is the handle that a device would get. */
  function Rest(s: Content, pc: Pc, next: Handle, present: bool): Content {
    var made := if present then Some(next) else None;
    match pc
    case Idle => s
    case OChk(c, d) => AfterOpen(s, c, d, made).0
    case OChkUn(c, d, found) => if found then s else OpenRest(s, c, d, made)
    case OFind(c, d) => OpenRest(s, c, d, made)
    case OAddConn(c, d) => Register(s, c, d)
    case OPlace(c, d) => OpenRest(s, c, d, made)
    case OTestNull(c, d) => Stored(s, c, d, made)
    case OCreateUn(c, d) => Stored(s, c, d, made)
    case OCreate(c, d) => Stored(s, c, d, made)
    case OSet(c, d, made') => Stored(s, c, d, made')
    case OSetConn(c, d, _) => Register(s, c, d)
    case OClear(_, d, made') => if made'.Some? then s else Without(s, d)
    case OUn(_, _, _) => s
    case MFind(c, d, k) => TaskRest(s, c, d, k, made, present)
    case MHitUn(c, d, k) => TaskRest(s, c, d, k, made, present)
    case MMissUn(c, d, k) => TaskRest(s, c, d, k, made, present)
    case MInsert(c, d, k) => TaskRest(s, c, d, k, made, present)
    case MInsertUn(c, d, k) => TaskRest(s, c, d, k, made, present)
    case MTake(c, d, k) => TaskRest(s, c, d, k, made, present)
    case UFind(_, d, a) => EndRest(s, d, a)
    case UFindUn(_, d, a, _) => EndRest(s, d, a)
    case URelease(_, d, a) => EndRest(s, d, a)
    case CChk(c, d, force) => AfterRemove(s, c, d, force)
    case CChkUn(c, d, force, registered) =>
      var known := if d == UINT32_MAX then registered else d;
      if known == UINT32_MAX then s else CloseRest(s, c, known, force)
    case CErase(c, d, force) => CloseRest(s, c, d, force)
    case CEraseUn(_, d, force) => DropRest(s, d, force)
    case CLook(_, d, force) => DropRest(s, d, force)
    case CTest(_, d, force) => DropRest(s, d, force)
    case CKeepUn(_, _) => s
    case CKillUn(_, d) => Without(s, d)
    case CKill(_, d) => Without(s, d)
    case CNull(_, d) => Without(s, d)
    case CDel(_, d) => Without(s, d)
    case CDelUn(_, _) => s
    case SFind(_, d) => AfterSend(s, d, present)
    case SFindUn(_, d, found) => if found then SendRest(s, d, present) else s
    case SUse(_, d) => SendRest(s, d, present)
    case SIo(_, d, _) => if present then s else AfterRemove(s, UINT32_MAX, d, true)
  }

  function TaskSuccess(s: Content, d: Dev, k: Task, present: bool): bool {
    match k
    case ForOpen => d in s.table || present
    case ForClose(_) => false
    case ForSend => Entry(s.table, d).Some? && present
  }

  /** Whether a call that stands at `pc` will answer that its connection has its device, or that the
      device has answered. */
  function Success(s: Content, pc: Pc, present: bool): bool {
    match pc
    case OChk(c, d) => HasConn(s.conns, c) || d in s.table || present
    case OChkUn(c, d, found) => found || d in s.table || present
    case OFind(c, d) => d in s.table || present
    case OAddConn(_, _) => true
    case OPlace(_, d) => present
    case OTestNull(_, _) => present
    case OCreateUn(_, _) => present
    case OCreate(_, _) => present
    case OSet(_, _, made) => made.Some?
    case OSetConn(_, _, _) => true
    case OClear(_, _, made) => made.Some?
    case OUn(_, _, ok) => ok
    case MFind(_, d, k) => TaskSuccess(s, d, k, present)
    case MHitUn(_, d, k) => TaskSuccess(s, d, k, present)
    case MMissUn(_, d, k) => TaskSuccess(s, d, k, present)
    case MInsert(_, d, k) => TaskSuccess(s, d, k, present)
    case MInsertUn(_, d, k) => TaskSuccess(s, d, k, present)
    case MTake(_, d, k) => TaskSuccess(s, d, k, present)
    case UFind(_, _, a) => a == Opened(true) || a == Sent
    case UFindUn(_, _, a, _) => a == Opened(true) || a == Sent
    case URelease(_, _, a) => a == Opened(true) || a == Sent
    case SFind(_, d) => Entry(s.table, d).Some? && present
    case SFindUn(_, d, found) => found && Entry(s.table, d).Some? && present
    case SUse(_, d) => Entry(s.table, d).Some? && present
    case SIo(_, _, _) => present
    case _ => false
  }

  /** What a call returns that goes from `pc` to its end. */
  predicate Returned(pc: Pc) {
    (pc.OChkUn? && pc.found) || (pc.URelease? && (pc.a == Opened(true) || pc.a == Sent))
  }

  /** An upper bound of the steps to go. */
  function Rank(pc: Pc): nat {
    match pc
    case Idle => 0
    case OChk(_, _) => 19
    case OChkUn(_, _, _) => 18
    case OFind(_, _) => 12
    case OPlace(_, _) => 11
    case OTestNull(_, _) => 10
    case OCreateUn(_, _) => 9
    case OCreate(_, _) => 8
    case OSet(_, _, _) => 7
    case OSetConn(_, _, _) => 6
    case OAddConn(_, _) => 5
    case OClear(_, _, _) => 5
    case OUn(_, _, _) => 4
    case MFind(_, _, k) => TaskRank(k) + 4
    case MMissUn(_, _, k) => TaskRank(k) + 3
    case MInsert(_, _, k) => TaskRank(k) + 2
    case MInsertUn(_, _, k) => TaskRank(k) + 1
    case MHitUn(_, _, k) => TaskRank(k) + 1
    case MTake(_, _, k) => TaskRank(k)
    case UFind(_, _, a) => EndRank(a) + 2
    case UFindUn(_, _, a, _) => EndRank(a) + 1
    case URelease(_, _, a) => EndRank(a)
    case CChk(_, _, _) => 19
    case CChkUn(_, _, _, _) => 18
    case CErase(_, _, _) => 12
    case CEraseUn(_, _, _) => 11
    case CLook(_, _, _) => 10
    case CTest(_, _, _) => 9
    case CKillUn(_, _) => 8
    case CKill(_, _) => 7
    case CNull(_, _) => 6
    case CDel(_, _) => 5
    case CKeepUn(_, _) => 4
    case CDelUn(_, _) => 4
    case SFind(_, _) => 31
    case SFindUn(_, _, _) => 30
    case SUse(_, _) => 24
    case SIo(_, _, _) => 23
  }

  function TaskRank(k: Task): nat {
    if k == ForSend then 25 else 13
  }

  function EndRank(a: After): nat {
    if a == RemoveByForce then 20 else 1
  }

  // ---------------------------------------------------------------- operations keep the rest

  lemma AfterRemoveIs(s: Content, c: ConnId, d: Dev, force: bool)
    ensures var known := RemovedDevice(s, c, d);
            AfterRemove(s, c, d, force) == if known == UINT32_MAX then s else CloseRest(s, c, known, force)
  {
    hide HasDevice, EraseFirst, RemovedDevice;
    var known := RemovedDevice(s, c, d);
    assert known !in s.table ==> s.table - {known} == s.table;
  }

  /** The state of table and list after the operation at `pc`. */
  function Done(s: State, pc: Pc): Content {
    Content(TableAfter(s.table, pc), ConnsAfter(s.conns, pc))
  }

  predicate OpenPc(pc: Pc) {
    || pc.OChk? || pc.OFind? || pc.OAddConn? || pc.OPlace? || pc.OTestNull?
    || pc.OCreate? || pc.OSet? || pc.OSetConn? || pc.OClear?
  }

  predicate ClosePc(pc: Pc) {
    pc.CChk? || pc.CErase? || pc.CLook? || pc.CTest? || pc.CKill? || pc.CNull? || pc.CDel?
  }

  lemma OpenActKeepsRest(s: State, pc: Pc, ch: Choice)
    requires OwnerView(s, pc) && OpenPc(pc)
    ensures Rest(ContentOf(s), pc, s.issued, ch.present) == Rest(Done(s, pc), NextPc(s, pc, ch), s.issued, ch.present)
  {
    hide HasDevice, EraseFirst, HasConn, FirstOf, IsLive, DeviceTable.DeviceOf, AfterRemove, AfterSend;
    if pc.OPlace? {
      assert s.table[pc.d := None] - {pc.d} == s.table;
    }
  }

  lemma CheckKeepsRest(s: State, pc: Pc, ch: Choice)
    requires pc.CChk?
    ensures Rest(ContentOf(s), pc, s.issued, ch.present) == Rest(Done(s, pc), NextPc(s, pc, ch), s.issued, ch.present)
  {
    hide AfterRemove, CloseRest, DeviceTable.DeviceOf;
    AfterRemoveIs(ContentOf(s), pc.c, pc.d, pc.force);
  }

  lemma CloseActKeepsRest(s: State, pc: Pc, ch: Choice)
    requires OwnerView(s, pc) && ClosePc(pc) && !pc.CChk?
    ensures Rest(ContentOf(s), pc, s.issued, ch.present) == Rest(Done(s, pc), NextPc(s, pc, ch), s.issued, ch.present)
  {
    hide HasDevice, EraseFirst, HasConn, FirstOf, IsLive, DeviceTable.DeviceOf, AfterRemove, AfterSend,
         AfterOpen, OpenRest, SendRest;
    if pc.CNull? {
      assert s.table[pc.d := None] - {pc.d} == s.table - {pc.d};
    }
  }

  lemma OtherActKeepsRest(s: State, pc: Pc, ch: Choice)
    requires OwnerView(s, pc) && !OpenPc(pc) && !ClosePc(pc) && !RwLeaves(pc) && !PoolHeld(pc)
    ensures Rest(ContentOf(s), pc, s.issued, ch.present) == Rest(Done(s, pc), NextPc(s, pc, ch), s.issued, ch.present)
  {
    hide HasDevice, EraseFirst, HasConn, FirstOf, IsLive, DeviceTable.DeviceOf, AfterRemove, AfterOpen,
         OpenRest, CloseRest, DropRest;
    if pc.SFind? {
      assert pc.d in s.table ==> s.table[pc.d := s.table[pc.d]] == s.table;
    }
  }

  /** Whatever operation is next, the rest of the call after it is what the rest was before it. */
  lemma ActKeepsRest(s: State, pc: Pc, ch: Choice)
    requires OwnerView(s, pc) && !RwLeaves(pc) && !PoolHeld(pc)
    ensures Rest(ContentOf(s), pc, s.issued, ch.present) == Rest(Done(s, pc), NextPc(s, pc, ch), s.issued, ch.present)
  {
    hide OwnerView, Rest, Done, NextPc, RwLeaves, PoolHeld;
    if OpenPc(pc) {
      OpenActKeepsRest(s, pc, ch);
    } else if pc.CChk? {
      CheckKeepsRest(s, pc, ch);
    } else if ClosePc(pc) {
      CloseActKeepsRest(s, pc, ch);
    } else {
      OtherActKeepsRest(s, pc, ch);
    }
  }

  lemma ActKeepsSuccess(s: State, pc: Pc, ch: Choice)
    requires OwnerView(s, pc) && !RwLeaves(pc) && !PoolHeld(pc)
    ensures NextPc(s, pc, ch).Idle? ==> pc.Idle? || Returned(pc) == Success(ContentOf(s), pc, ch.present)
    ensures !NextPc(s, pc, ch).Idle? ==>
      Success(Done(s, pc), NextPc(s, pc, ch), ch.present) == Success(ContentOf(s), pc, ch.present)
  {
    hide HasDevice, HasConn, IsLive, DeviceTable.DeviceOf, EraseFirst;
  }

  lemma LeaveKeepsSuccess(s: Content, pc: Pc, present: bool)
    requires pc.UFindUn? ==> pc.found
    ensures RwLeaves(pc) ==>
      if AfterRwLeave(pc).Idle? then Returned(pc) == Success(s, pc, present)
      else Success(s, AfterRwLeave(pc), present) == Success(s, pc, present)
    ensures PoolHeld(pc) ==>
      !AfterPoolLeave(pc).Idle? && Success(s, AfterPoolLeave(pc), present) == Success(s, pc, present)
  {
    hide HasConn;
  }

  lemma LeavesLowerRank(pc: Pc)
    ensures RwLeaves(pc) ==> Rank(AfterRwLeave(pc)) < Rank(pc)
    ensures PoolHeld(pc) ==> Rank(AfterPoolLeave(pc)) < Rank(pc)
  {
  }

  lemma ActLowersRank(s: State, pc: Pc, ch: Choice)
    requires !RwLeaves(pc) && !PoolHeld(pc) && !pc.Idle?
    ensures Rank(NextPc(s, pc, ch)) < Rank(pc)
  {
    hide HasDevice, HasConn, DeviceTable.DeviceOf, Entry;
  }

  lemma RwLeaveKeepsRest(s: Content, pc: Pc, next: Handle, present: bool)
    requires RwLeaves(pc)
    ensures Rest(s, AfterRwLeave(pc), next, present) == Rest(s, pc, next, present)
  {
    hide AfterRemove, AfterSend, AfterOpen, OpenRest, CloseRest, DropRest, SendRest, Without, Stored;
  }

  lemma PoolLeaveKeepsRest(s: Content, pc: Pc, next: Handle, present: bool)
    requires PoolHeld(pc) && (pc.UFindUn? ==> pc.found)
    ensures Rest(s, AfterPoolLeave(pc), next, present) == Rest(s, pc, next, present)
  {
    hide AfterRemove, AfterSend, AfterOpen, OpenRest, CloseRest, DropRest, SendRest, Without, Stored;
  }

  // ---------------------------------------------------------------- a thread alone

  ghost predicate LockAlone(l: Lock, t: Tid) {
    Unlocked(l) || ReadBy(l, t) || WrittenBy(l, t)
  }

  /** No other thread is inside a lock, waits for one, or owns a device mutex. */
  ghost predicate Alone(s: State, t: Tid) {
    && t in s.pcs
    && (forall u :: u in s.pcs && u != t ==> Owns(s.pcs[u]).None?)
    && LockAlone(s.rw, t) && LockAlone(s.poolRw, t)
  }

  /** Twice the rank, and one more while a lock is still to be acquired. */
  function ToGo(s: State, t: Tid): nat
    requires t in s.pcs
  {
    2 * Rank(s.pcs[t])
    + (if InPlace(s.rw, t, RwNeed(s.pcs[t])) && InPlace(s.poolRw, t, PoolNeed(s.pcs[t])) then 0 else 1)
  }

  function RestOf(s: State, t: Tid, present: bool): Content
    requires t in s.pcs
  {
    Rest(ContentOf(s), s.pcs[t], s.issued, present)
  }

  /** A lock that nobody uses is acquired at once. */
  lemma AcquireAlone(l: Lock, t: Tid, need: Need) returns (l': Lock)
    requires Unlocked(l) && t in l.pos && need != Nothing
    ensures Acquires(l, l', t, need) && LockAlone(l', t) && InPlace(l', t, need)
  {
    l' := if need == Shared then ReadEnter(l, t) else WriteEnter(l, t);
  }

  lemma LeaveAlone(l: Lock, t: Tid) returns (l': Lock)
    requires ReadBy(l, t) || WrittenBy(l, t)
    ensures LeaveStep(l, l', t, None) && Unlocked(l')
  {
    l' := if ReadBy(l, t) then ReadLeave(l, t, None) else WriteLeave(l, t, None);
  }

  /** Between locks: where a thread that runs alone stands in a lock, by its need. */
  lemma StandsAlone(l: Lock, t: Tid, need: Need, held: bool)
    requires LockAlone(l, t) && t in l.pos && PosFits(need, held, l.pos[t])
    ensures !InPlace(l, t, need) ==> Unlocked(l) && !held
    ensures held && need != Nothing ==> ReadBy(l, t) || WrittenBy(l, t)
  {
  }

  lemma NeedsOneLock(pc: Pc)
    ensures RwNeed(pc) == Nothing || PoolNeed(pc) == Nothing
    ensures RwLeaves(pc) ==> RwNeed(pc) != Nothing && RwHeld(pc)
    ensures PoolHeld(pc) ==> PoolNeed(pc) != Nothing
  {
  }

  ghost predicate SoloStep(s: State, s': State, t: Tid, ch: Choice) {
    && InnerStep(s, s', t, ch) && Alone(s, t) && Alone(s', t)
    && RestOf(s', t, ch.present) == RestOf(s, t, ch.present)
    && ToGo(s', t) < ToGo(s, t)
    && SuccessKept(s, s', t, ch.present)
    && s'.pcs.Keys == s.pcs.Keys && (forall u :: u in s.pcs && u != t ==> s'.pcs[u] == s.pcs[u])
  }

  /** What the call will answer, or answers at once. */
  predicate SuccessKept(s: State, s': State, t: Tid, present: bool)
    requires t in s.pcs && t in s'.pcs
  {
    if s'.pcs[t].Idle? then s.pcs[t].Idle? || Returned(s.pcs[t]) == Success(ContentOf(s), s.pcs[t], present)
    else Success(ContentOf(s'), s'.pcs[t], present) == Success(ContentOf(s), s.pcs[t], present)
  }

  lemma SoloAcquireRw(s: State, t: Tid, ch: Choice) returns (s': State)
    requires LocksInv(s) && Alone(s, t) && !InPlace(s.rw, t, RwNeed(s.pcs[t]))
    ensures SoloStep(s, s', t, ch)
  {
    hide Rest, Rank, Success, Returned, RwLocks.Inv, Acquires, Unlocked, ReadBy, WrittenBy;
    var pc := s.pcs[t];
    NeedsOneLock(pc);
    StandsAlone(s.rw, t, RwNeed(pc), RwHeld(pc));
    var l := AcquireAlone(s.rw, t, RwNeed(pc));
    s' := s.(rw := l);
    assert StepAcquireRw(s, s', t);
  }

  lemma SoloAcquirePool(s: State, t: Tid, ch: Choice) returns (s': State)
    requires LocksInv(s) && Alone(s, t) && !InPlace(s.poolRw, t, PoolNeed(s.pcs[t]))
    ensures SoloStep(s, s', t, ch)
  {
    hide Rest, Rank, Success, Returned, RwLocks.Inv, Acquires, Unlocked, ReadBy, WrittenBy;
    var pc := s.pcs[t];
    NeedsOneLock(pc);
    StandsAlone(s.poolRw, t, PoolNeed(pc), PoolHeld(pc));
    var l := AcquireAlone(s.poolRw, t, PoolNeed(pc));
    s' := s.(poolRw := l);
    assert StepAcquirePool(s, s', t);
  }

  lemma SoloLeaveRw(s: State, t: Tid, ch: Choice) returns (s': State)
    requires LocksInv(s) && Alone(s, t) && RwLeaves(s.pcs[t]) && ch.woken == None
    requires InPlace(s.rw, t, RwNeed(s.pcs[t])) && InPlace(s.poolRw, t, PoolNeed(s.pcs[t]))
    ensures SoloStep(s, s', t, ch)
  {
    hide Rest, Rank, Success, Returned, RwLocks.Inv, LeaveStep, Unlocked, ReadBy, WrittenBy, AfterRwLeave, RwNeed, PoolNeed, RwLeaves;
    var pc := s.pcs[t];
    NeedsOneLock(pc);
    StandsAlone(s.rw, t, RwNeed(pc), RwHeld(pc));
    var l := LeaveAlone(s.rw, t);
    s' := s.(rw := l, pcs := s.pcs[t := AfterRwLeave(pc)]);
    RwLeaveKeepsRest(ContentOf(s), pc, s.issued, ch.present);
    LeaveKeepsSuccess(ContentOf(s), pc, ch.present);
    LeavesLowerRank(pc);
    assert StepLeaveRw(s, s', t, ch);
  }

  lemma SoloLeavePool(s: State, t: Tid, ch: Choice) returns (s': State)
    requires LocksInv(s) && Alone(s, t) && PoolHeld(s.pcs[t]) && ch.woken == None && OwnerView(s, s.pcs[t])
    requires InPlace(s.rw, t, RwNeed(s.pcs[t])) && InPlace(s.poolRw, t, PoolNeed(s.pcs[t]))
    ensures SoloStep(s, s', t, ch)
  {
    hide Rest, Rank, Success, Returned, RwLocks.Inv, LeaveStep, Unlocked, ReadBy, WrittenBy, AfterPoolLeave, RwNeed, PoolNeed;
    var pc := s.pcs[t];
    NeedsOneLock(pc);
    StandsAlone(s.poolRw, t, PoolNeed(pc), PoolHeld(pc));
    var l := LeaveAlone(s.poolRw, t);
    s' := s.(poolRw := l, pcs := s.pcs[t := AfterPoolLeave(pc)]);
    PoolLeaveKeepsRest(ContentOf(s), pc, s.issued, ch.present);
    LeaveKeepsSuccess(ContentOf(s), pc, ch.present);
    LeavesLowerRank(pc);
    assert StepLeavePool(s, s', t, ch);
  }

  /** No one else owns a device mutex. */
  lemma MutexIsFree(s: State, t: Tid)
    requires MutexInv(s) && Alone(s, t) && s.pcs[t].MTake?
    ensures s.pcs[t].d in s.mutexes && s.mutexes[s.pcs[t].d] == None
  {
    assert HasMutex(s.pcs[t]);
  }

  lemma NextHandleUnused(s: State, pc: Pc, ch: Choice)
    requires pc.OCreate?
    ensures Rest(Done(s, pc), NextPc(s, pc, ch), s.issued + 1, ch.present)
         == Rest(Done(s, pc), NextPc(s, pc, ch), s.issued, ch.present)
  {
  }

  lemma SoloAct(s: State, t: Tid, ch: Choice) returns (s': State)
    requires DeviceTable.Inv(s) && Alone(s, t) && !s.pcs[t].Idle? && !RwLeaves(s.pcs[t]) && !PoolHeld(s.pcs[t])
    requires InPlace(s.rw, t, RwNeed(s.pcs[t])) && InPlace(s.poolRw, t, PoolNeed(s.pcs[t]))
    ensures SoloStep(s, s', t, ch)
  {
    hide Rest, Rank, Success, Returned, LocksInv, InPlace, RwNeed, PoolNeed, RwLeaves, PoolHeld, NextPc, TableAfter, ConnsAfter,
         MutexesAfter, LiveAfter, Unlocked, ReadBy, WrittenBy, OwnerView, DeviceInv;
    var pc := s.pcs[t];
    if pc.MTake? {
      MutexIsFree(s, t);
    }
    s' := Act(s, t, ch);
    ViewOf(s, t);
    ActKeepsRest(s, pc, ch);
    ActKeepsSuccess(s, pc, ch);
    ActLowersRank(s, pc, ch);
    if pc.OCreate? && ch.present {
      NextHandleUnused(s, pc, ch);
    }
    assert StepAct(s, s', t, ch);
  }

  lemma SoloProgress(s: State, t: Tid, ch: Choice) returns (s': State)
    requires DeviceTable.Inv(s) && Alone(s, t) && !s.pcs[t].Idle? && ch.woken == None
    ensures SoloStep(s, s', t, ch)
  {
    hide SoloStep, Alone, LocksInv, MutexInv, OwnerView, DeviceInv, InPlace, RwLeaves, PoolHeld, RwNeed, PoolNeed;
    AloneIsThere(s, t);
    ViewOf(s, t);
    if !InPlace(s.rw, t, RwNeed(s.pcs[t])) {
      s' := SoloAcquireRw(s, t, ch);
    } else if !InPlace(s.poolRw, t, PoolNeed(s.pcs[t])) {
      s' := SoloAcquirePool(s, t, ch);
    } else if RwLeaves(s.pcs[t]) {
      s' := SoloLeaveRw(s, t, ch);
    } else if PoolHeld(s.pcs[t]) {
      s' := SoloLeavePool(s, t, ch);
    } else {
      s' := SoloAct(s, t, ch);
    }
  }

  lemma AloneIsThere(s: State, t: Tid)
    requires Alone(s, t)
    ensures t in s.pcs
  {
  }

  // ---------------------------------------------------------------- a call alone

  ghost predicate OwnStepAt(r: seq<State>, i: nat, t: Tid, ch: Choice)
    requires i + 1 < |r|
  {
    InnerStep(r[i], r[i + 1], t, ch)
  }

  /** A sequence of steps of thread `t`. */
  ghost predicate Steps(r: seq<State>, t: Tid, ch: Choice) {
    |r| > 0 && forall i: nat :: i + 1 < |r| ==> OwnStepAt(r, i, t, ch)
  }

  /** The last step of a call: from its last program counter. */
  predicate Answers(r: seq<State>, t: Tid, answer: bool) {
    |r| >= 2 && t in r[|r| - 2].pcs && Returned(r[|r| - 2].pcs[t]) == answer
  }

  /** A thread that runs alone finishes its call, with the outcome and the answer that were predicted. */
  lemma {:induction false} SoloRun(s: State, t: Tid, ch: Choice) returns (r: seq<State>)
    requires DeviceTable.Inv(s) && Alone(s, t) && ch.woken == None
    ensures Steps(r, t, ch) && r[0] == s
    ensures DeviceTable.Inv(r[|r| - 1]) && Alone(r[|r| - 1], t) && r[|r| - 1].pcs[t].Idle?
    ensures ContentOf(r[|r| - 1]) == RestOf(s, t, ch.present)
    ensures if s.pcs[t].Idle? then |r| == 1 else Answers(r, t, Success(ContentOf(s), s.pcs[t], ch.present))
    ensures r[|r| - 1].pcs == s.pcs[t := Idle]
    decreases ToGo(s, t)
  {
    hide DeviceTable.Inv, InnerStep, ToGo, LockAlone, Success, Returned, Rest, Owns;
    if s.pcs[t].Idle? {
      r := [s];
      IdleRest(ContentOf(s), s.issued, ch.present);
    } else {
      var s' := SoloProgress(s, t, ch);
      InnerStepKeepsInv(s, s', t, ch);
      var rest := SoloRun(s', t, ch);
      r := [s] + rest;
      forall i: nat | i + 1 < |r| ensures OwnStepAt(r, i, t, ch) {
        assert i > 0 ==> OwnStepAt(rest, i - 1, t, ch);
      }
    }
  }

  lemma IdleRest(s: Content, next: Handle, present: bool)
    ensures Rest(s, Idle, next, present) == s
  {
  }

  function AfterCall(s: Content, call: Call, next: Handle, present: bool): Content {
    match call
    case Open(c, d) => AfterOpen(s, c, d, if present then Some(next) else None).0
    case Close(c, d) => AfterRemove(s, c, d, false)
    case Send(_, d) => AfterSend(s, d, present)
  }

  /** The answer of the class's methods; a removal has none. */
  function CallAnswer(s: Content, call: Call, present: bool): bool {
    match call
    case Open(c, d) => AfterOpen(s, c, d, if present then Some(0) else None).1
    case Close(_, _) => false
    case Send(_, d) => d in s.table && s.table[d].Some? && present
  }

  /**
   From any reachable state in which no other thread is inside a lock or owns a device mutex, a call
   that is then made and meets no other runs to its end. It has the effect and the answer that the
   methods of module DeviceMaps have, and leaves the live handles in the table.
  */
  lemma SoloCallMatchesClass(s: State, t: Tid, call: Call, present: bool) returns (r: seq<State>)
    requires DeviceTable.Inv(s) && Alone(s, t) && s.pcs[t].Idle? && call.c != UINT32_MAX
    ensures |r| > 0 && StepStart(s, r[0], t, call) && Steps(r, t, Choice(present, None))
    ensures Answers(r, t, CallAnswer(ContentOf(s), call, present))
    ensures var e := r[|r| - 1];
            && DeviceTable.Inv(e) && Alone(e, t) && e.pcs == s.pcs
            && ContentOf(e) == AfterCall(ContentOf(s), call, s.issued, present)
            && forall h: Handle, d: Dev :: IsLive(e, h, d) <==> EntryIs(e, d, Some(h))
  {
    hide InnerStep, LocksInv, MutexInv, HandlesInv, AfterOpen, AfterRemove, AfterSend, LockAlone;
    var s' := s.(pcs := s.pcs[t := FirstPc(call)]);
    StartKeepsInv(s, s', t, call);
    r := SoloRun(s', t, Choice(present, None));
    FirstSuccess(ContentOf(s), call, present);
    QuietHandles(r[|r| - 1]);
  }

  lemma FirstSuccess(s: Content, call: Call, present: bool)
    ensures Success(s, FirstPc(call), present) == CallAnswer(s, call, present)
  {
    hide HasConn;
  }

  /** When nobody owns a device mutex, the live handles are exactly those in the table. */
  lemma QuietHandles(s: State)
    requires DeviceTable.Inv(s) && forall u :: u in s.pcs ==> Owns(s.pcs[u]).None?
    ensures forall h: Handle, d: Dev :: IsLive(s, h, d) <==> EntryIs(s, d, Some(h))
  {
    hide LocksInv;
    forall h: Handle, d: Dev ensures IsLive(s, h, d) <==> EntryIs(s, d, Some(h)) {
      assert DeviceInv(s, d);
      assert !Clearing(s, d) && !Placing(s, h, d);
    }
  }

  /** When all threads are outside of calls, nobody holds a lock, so each of them is alone. */
  lemma QuietIsAlone(s: State, t: Tid)
    requires DeviceTable.Inv(s) && t in s.pcs && forall u :: u in s.pcs ==> s.pcs[u].Idle?
    ensures Alone(s, t) && Unlocked(s.rw) && Unlocked(s.poolRw)
  {
    hide MutexInv, HandlesInv;
    NobodyCounted(s.rw);
    NobodyCounted(s.poolRw);
  }

  lemma NobodyCounted(l: Lock)
    requires RwLocks.Inv(l) && forall u :: u in l.pos ==> l.pos[u] == Out
    ensures Unlocked(l)
  {
    assert l.At({Reading}) == {} && l.At(READ_WAITERS) == {} && l.At({Writing}) == {} && l.At(WRITE_WAITERS) == {};
  }
}
