/**
 The server's table of opened devices, shared by all connection threads.

 A thread runs `open_if_not`, `remove_conn_or_remove_device` or `operation_send_request`; its
 program counter names the next operation. Every operation on a lock, on the table, on the
 connection list or on the pool of device mutexes is one step, and the two read-write locks are
 the ones of module RwLocks, with their counters, sleepers and spurious wakeups.

 Devices are the ids of one family (equal VID, PID and reserve), where the source's ordering of
 ids is a strict order; the family contains `DevId(0)`, which stands for an unknown connection.
*/
module DeviceTable {
  import opened Words
  import opened RwLocks

  type Dev = u32
  type ConnId = u32
  type Handle = nat

  /** What a thread does once it owns a device mutex. */
  datatype Task = ForOpen | ForClose(force: bool) | ForSend

  /** What a thread does once it has given a device mutex back. */
  datatype After = Opened(ok: bool) | Closed | Sent | RemoveByForce

  /** Names ending in `Un` are the release of a read-write lock. */
  datatype Pc =
    | Idle
      // open_if_not
    | OChk(c: ConnId, d: Dev)
    | OChkUn(c: ConnId, d: Dev, found: bool)
    | OFind(c: ConnId, d: Dev)
    | OAddConn(c: ConnId, d: Dev)
    | OPlace(c: ConnId, d: Dev)
    | OTestNull(c: ConnId, d: Dev)
    | OCreateUn(c: ConnId, d: Dev)
    | OCreate(c: ConnId, d: Dev)
    | OSet(c: ConnId, d: Dev, made: Option<Handle>)
    | OSetConn(c: ConnId, d: Dev, h: Handle)
    | OClear(c: ConnId, d: Dev, made: Option<Handle>)
    | OUn(c: ConnId, d: Dev, ok: bool)
      // lock_create_device_mutex
    | MFind(c: ConnId, d: Dev, k: Task)
    | MHitUn(c: ConnId, d: Dev, k: Task)
    | MMissUn(c: ConnId, d: Dev, k: Task)
    | MInsert(c: ConnId, d: Dev, k: Task)
    | MInsertUn(c: ConnId, d: Dev, k: Task)
    | MTake(c: ConnId, d: Dev, k: Task)
      // unlock_device_mutex
    | UFind(c: ConnId, d: Dev, a: After)
    | UFindUn(c: ConnId, d: Dev, a: After, found: bool)
    | URelease(c: ConnId, d: Dev, a: After)
      // remove_conn_or_remove_device
    | CChk(c: ConnId, d: Dev, force: bool)
    | CChkUn(c: ConnId, d: Dev, force: bool, registered: Dev)
    | CErase(c: ConnId, d: Dev, force: bool)
    | CEraseUn(c: ConnId, d: Dev, force: bool)
    | CLook(c: ConnId, d: Dev, force: bool)
    | CTest(c: ConnId, d: Dev, force: bool)
    | CKeepUn(c: ConnId, d: Dev)
    | CKillUn(c: ConnId, d: Dev)
    | CKill(c: ConnId, d: Dev)
    | CNull(c: ConnId, d: Dev)
    | CDel(c: ConnId, d: Dev)
    | CDelUn(c: ConnId, d: Dev)
      // operation_send_request, urpc_operation_send_request
    | SFind(c: ConnId, d: Dev)
    | SFindUn(c: ConnId, d: Dev, found: bool)
    | SUse(c: ConnId, d: Dev)
    | SIo(c: ConnId, d: Dev, h: Handle)

  /** A table entry holds a handle or the null placeholder; `live` maps handles that were created
      and not yet destroyed to their devices, `issued` is the number of handles ever created, and
      `forced` are the devices for which a forced removal was ever begun. */
  datatype State = State(
    table: map<Dev, Option<Handle>>,
    conns: seq<(ConnId, Dev)>,
    mutexes: map<Dev, Option<Tid>>,
    rw: Lock,
    poolRw: Lock,
    live: map<Handle, Dev>,
    issued: nat,
    forced: set<Dev>,
    pcs: map<Tid, Pc>
  )

  function Initial(threads: set<Tid>): State {
    State(map[], [], map[], NewLock(threads), NewLock(threads), map[], 0, {}, map t | t in threads :: Idle)
  }

  // ---------------------------------------------------------------- the connection list

  predicate HasConn(conns: seq<(ConnId, Dev)>, c: ConnId) {
    exists i :: 0 <= i < |conns| && conns[i].0 == c
  }

  predicate HasDevice(conns: seq<(ConnId, Dev)>, d: Dev) {
    exists i :: 0 <= i < |conns| && conns[i].1 == d
  }

  /** `find_if` by connection: the first entry of connection `c`. */
  function FirstOf(conns: seq<(ConnId, Dev)>, c: ConnId): (i: nat)
    ensures i <= |conns|
    ensures forall j :: 0 <= j < i ==> conns[j].0 != c
    ensures i < |conns| ==> conns[i].0 == c
  {
    if conns == [] || conns[0].0 == c then 0 else FirstOf(conns[1..], c) + 1
  }

  function EraseFirst(conns: seq<(ConnId, Dev)>, c: ConnId): seq<(ConnId, Dev)> {
    var i := FirstOf(conns, c);
    if i < |conns| then conns[..i] + conns[i + 1..] else conns
  }

  /** `_is_actual_connection`: the device of a connection, `DevId(0)` for an unknown one. */
  function DeviceOf(conns: seq<(ConnId, Dev)>, c: ConnId): Dev {
    var i := FirstOf(conns, c);
    if i < |conns| then conns[i].1 else 0
  }

  // ---------------------------------------------------------------- what a program counter needs

  datatype Need = Nothing | Shared | Exclusive

  /** The table lock: needed at this point, and whether it is already held there. */
  function RwNeed(pc: Pc): Need {
    match pc
    case OChk(_, _) | OChkUn(_, _, _) | CChk(_, _, _) | CChkUn(_, _, _, _) | CLook(_, _, _) | CTest(_, _, _)
       | CKeepUn(_, _) | CKillUn(_, _) | SFind(_, _) | SFindUn(_, _, _) => Shared
    case OFind(_, _) | OAddConn(_, _) | OPlace(_, _) | OTestNull(_, _) | OCreateUn(_, _) | OSet(_, _, _)
       | OSetConn(_, _, _) | OClear(_, _, _) | OUn(_, _, _) | CErase(_, _, _) | CEraseUn(_, _, _)
       | CDel(_, _) | CDelUn(_, _) => Exclusive
    case _ => Nothing
  }

  predicate RwHeld(pc: Pc) {
    match pc
    case OChk(_, _) | CChk(_, _, _) | CLook(_, _, _) | SFind(_, _) | OFind(_, _) | OSet(_, _, _)
       | CErase(_, _, _) | CDel(_, _) => false
    case _ => RwNeed(pc) != Nothing
  }

  /** The lock of the mutex pool, likewise. */
  function PoolNeed(pc: Pc): Need {
    match pc
    case MFind(_, _, _) | MHitUn(_, _, _) | MMissUn(_, _, _) | UFind(_, _, _) | UFindUn(_, _, _, _) => Shared
    case MInsert(_, _, _) | MInsertUn(_, _, _) => Exclusive
    case _ => Nothing
  }

  predicate PoolHeld(pc: Pc) {
    pc.MHitUn? || pc.MMissUn? || pc.UFindUn? || pc.MInsertUn?
  }

  /** The device whose mutex a thread owns. */
  function Owns(pc: Pc): Option<Dev> {
    match pc
    case OFind(_, d) => Some(d)
    case OAddConn(_, d) => Some(d)
    case OPlace(_, d) => Some(d)
    case OTestNull(_, d) => Some(d)
    case OCreateUn(_, d) => Some(d)
    case OCreate(_, d) => Some(d)
    case OSet(_, d, _) => Some(d)
    case OSetConn(_, d, _) => Some(d)
    case OClear(_, d, _) => Some(d)
    case OUn(_, d, _) => Some(d)
    case UFind(_, d, _) => Some(d)
    case UFindUn(_, d, _, _) => Some(d)
    case URelease(_, d, _) => Some(d)
    case CErase(_, d, _) => Some(d)
    case CEraseUn(_, d, _) => Some(d)
    case CLook(_, d, _) => Some(d)
    case CTest(_, d, _) => Some(d)
    case CKeepUn(_, d) => Some(d)
    case CKillUn(_, d) => Some(d)
    case CKill(_, d) => Some(d)
    case CNull(_, d) => Some(d)
    case CDel(_, d) => Some(d)
    case CDelUn(_, d) => Some(d)
    case SUse(_, d) => Some(d)
    case SIo(_, d, _) => Some(d)
    case _ => None
  }

  // ---------------------------------------------------------------- steps

  /** What the environment decides: whether the device is there, so that it opens, or answers a request
      with anything but "no device". */
  datatype Choice = Choice(present: bool, woken: Option<Tid>)

  function Begin(c: ConnId, d: Dev, k: Task): Pc {
    match k
    case ForOpen => OFind(c, d)
    case ForClose(force) => CErase(c, d, force)
    case ForSend => SUse(c, d)
  }

  function Ended(d: Dev, a: After): Pc {
    if a == RemoveByForce then CChk(UINT32_MAX, d, true) else Idle
  }

  /** The device that a forced removal of device `d` closes: UINT32_MAX means the device of connection
      UINT32_MAX, which is unknown and so has device 0. */
  function RemovedByForce(d: Dev): Dev {
    if d == UINT32_MAX then 0 else d
  }

  /** The program counter after a release of the table lock. */
  function AfterRwLeave(pc: Pc): Pc {
    match pc
    case OChkUn(c, d, found) => if found then Idle else MFind(c, d, ForOpen)
    case OCreateUn(c, d) => OCreate(c, d)
    case OUn(c, d, ok) => UFind(c, d, Opened(ok))
    case CChkUn(c, d, force, registered) =>
      var known := if d == UINT32_MAX then registered else d;
      if known == UINT32_MAX then Idle else MFind(c, known, ForClose(force))
    case CEraseUn(c, d, force) => CLook(c, d, force)
    case CKeepUn(c, d) => UFind(c, d, Closed)
    case CKillUn(c, d) => CKill(c, d)
    case CDelUn(c, d) => UFind(c, d, Closed)
    case SFindUn(c, d, found) => if found then MFind(c, d, ForSend) else Idle
    case _ => pc
  }

  predicate RwLeaves(pc: Pc) {
    pc.OChkUn? || pc.OCreateUn? || pc.OUn? || pc.CChkUn? || pc.CEraseUn? || pc.CKeepUn? || pc.CKillUn? || pc.CDelUn?
    || pc.SFindUn?
  }

  /** The program counter after a release of the pool lock. */
  function AfterPoolLeave(pc: Pc): Pc {
    match pc
    case MHitUn(c, d, k) => MTake(c, d, k)
    case MMissUn(c, d, k) => MInsert(c, d, k)
    case MInsertUn(c, d, k) => MTake(c, d, k)
    case UFindUn(c, d, a, found) => if found then URelease(c, d, a) else Ended(d, a)
    case _ => pc
  }

  predicate InPlace(l: Lock, t: Tid, need: Need) {
    match need
    case Nothing => true
    case Shared => IsAt(l, t, Reading)
    case Exclusive => IsAt(l, t, Writing)
  }

  /** Thread `t` can perform the container or device operation at its program counter. */
  predicate CanAct(s: State, t: Tid) {
    && t in s.pcs
    && !s.pcs[t].Idle?
    && !RwLeaves(s.pcs[t])
    && !PoolHeld(s.pcs[t])
    && InPlace(s.rw, t, RwNeed(s.pcs[t]))
    && InPlace(s.poolRw, t, PoolNeed(s.pcs[t]))
    && (s.pcs[t].MTake? ==> s.pcs[t].d in s.mutexes && s.mutexes[s.pcs[t].d] == None)
  }

  /** `(*this)[devid]`: the entry, created null when absent. */
  function Entry(table: map<Dev, Option<Handle>>, d: Dev): Option<Handle> {
    if d in table then table[d] else None
  }

  /** The control flow between operations. */
  function NextPc(s: State, pc: Pc, ch: Choice): Pc {
    match pc
    case OChk(c, d) => OChkUn(c, d, HasConn(s.conns, c))
    case OFind(c, d) => if d in s.table then OAddConn(c, d) else OPlace(c, d)
    case OAddConn(c, d) => OUn(c, d, true)
    case OPlace(c, d) => OTestNull(c, d)
    case OTestNull(c, d) => if Entry(s.table, d).None? then OCreateUn(c, d) else OUn(c, d, true)
    case OCreate(c, d) => OSet(c, d, if ch.present then Some(s.issued) else None)
    case OSet(c, d, made) => if made.Some? && d in s.table then OSetConn(c, d, made.value) else OClear(c, d, made)
    case OSetConn(c, d, h) => OClear(c, d, Some(h))
    case OClear(c, d, made) => OUn(c, d, made.Some?)
    case MFind(c, d, k) => if d in s.mutexes then MHitUn(c, d, k) else MMissUn(c, d, k)
    case MInsert(c, d, k) => MInsertUn(c, d, k)
    case MTake(c, d, k) => Begin(c, d, k)
    case UFind(c, d, a) => UFindUn(c, d, a, d in s.mutexes)
    case URelease(c, d, a) => Ended(d, a)
    case CChk(c, d, force) => CChkUn(c, d, force, DeviceOf(s.conns, c))
    case CErase(c, d, force) => CEraseUn(c, d, force)
    case CLook(c, d, force) => if d in s.table then CTest(c, d, force) else CKeepUn(c, d)
    case CTest(c, d, force) => if force || !HasDevice(s.conns, d) then CKillUn(c, d) else CKeepUn(c, d)
    case CKill(c, d) => if Entry(s.table, d).Some? then CNull(c, d) else CDel(c, d)
    case CNull(c, d) => CDel(c, d)
    case CDel(c, d) => CDelUn(c, d)
    case SFind(c, d) => SFindUn(c, d, d in s.table)
    case SUse(c, d) =>
      (match Entry(s.table, d)
       case None => UFind(c, d, RemoveByForce)
       case Some(h) => SIo(c, d, h))
    case SIo(c, d, h) => UFind(c, d, if ch.present then Sent else RemoveByForce)
    case _ => pc
  }

  function TableAfter(table: map<Dev, Option<Handle>>, pc: Pc): map<Dev, Option<Handle>> {
    match pc
    case OPlace(_, d) => table[d := Entry(table, d)]
    case OSet(_, d, made) => if made.Some? && d in table then table[d := made] else table
    case OClear(_, d, _) => if Entry(table, d).None? then table - {d} else table
    case CNull(_, d) => table[d := None]
    case CDel(_, d) => table - {d}
    case SUse(_, d) => table[d := Entry(table, d)]
    case _ => table
  }

  function ConnsAfter(conns: seq<(ConnId, Dev)>, pc: Pc): seq<(ConnId, Dev)> {
    match pc
    case OAddConn(c, d) => conns + [(c, d)]
    case OSetConn(c, d, _) => conns + [(c, d)]
    case CErase(c, _, _) => EraseFirst(conns, c)
    case _ => conns
  }

  function MutexesAfter(mutexes: map<Dev, Option<Tid>>, t: Tid, pc: Pc): map<Dev, Option<Tid>> {
    match pc
    case MInsert(_, d, _) => if d in mutexes then mutexes else mutexes[d := None]
    case MTake(_, d, _) => mutexes[d := Some(t)]
    case URelease(_, d, _) => mutexes[d := None]
    case _ => mutexes
  }

  /** Handles appear when a device opens and vanish when one is destroyed. */
  function LiveAfter(s: State, pc: Pc, ch: Choice): map<Handle, Dev> {
    match pc
    case OCreate(_, d) => if ch.present then s.live[s.issued := d] else s.live
    case CKill(_, d) => if Entry(s.table, d).Some? then s.live - {s.table[d].value} else s.live
    case _ => s.live
  }

  function Act(s: State, t: Tid, ch: Choice): State
    requires CanAct(s, t)
  {
    var pc := s.pcs[t];
    s.(table := TableAfter(s.table, pc),
       conns := ConnsAfter(s.conns, pc),
       mutexes := MutexesAfter(s.mutexes, t, pc),
       live := LiveAfter(s, pc, ch),
       issued := if pc.OCreate? && ch.present then s.issued + 1 else s.issued,
       forced := if pc.URelease? && pc.a == RemoveByForce then s.forced + {RemovedByForce(pc.d)} else s.forced,
       pcs := s.pcs[t := NextPc(s, pc, ch)])
  }

  datatype Call = Open(c: ConnId, d: Dev) | Close(c: ConnId, d: Dev) | Send(c: ConnId, d: Dev)

  function FirstPc(call: Call): Pc {
    match call
    case Open(c, d) => OChk(c, d)
    case Close(c, d) => CChk(c, d, false)
    case Send(c, d) => SFind(c, d)
  }

  /** A step of the acquisition that thread `t`'s program counter asks for. */
  ghost predicate Acquires(l: Lock, l': Lock, t: Tid, need: Need) {
    match need
    case Nothing => false
    case Shared => (IsAt(l, t, Out) && l' == ReadEnter(l, t)) || (IsAt(l, t, ReadWoken) && l' == ReadRecheck(l, t))
    case Exclusive => (IsAt(l, t, Out) && l' == WriteEnter(l, t)) || (IsAt(l, t, WriteWoken) && l' == WriteRecheck(l, t))
  }

  ghost predicate StepAcquireRw(s: State, s': State, t: Tid) {
    && t in s.pcs && !RwHeld(s.pcs[t])
    && Acquires(s.rw, s'.rw, t, RwNeed(s.pcs[t])) && s' == s.(rw := s'.rw)
  }

  ghost predicate StepAcquirePool(s: State, s': State, t: Tid) {
    && t in s.pcs && !PoolHeld(s.pcs[t])
    && Acquires(s.poolRw, s'.poolRw, t, PoolNeed(s.pcs[t])) && s' == s.(poolRw := s'.poolRw)
  }

  ghost predicate StepLeaveRw(s: State, s': State, t: Tid, ch: Choice) {
    && t in s.pcs && RwLeaves(s.pcs[t])
    && LeaveStep(s.rw, s'.rw, t, ch.woken)
    && s' == s.(rw := s'.rw, pcs := s.pcs[t := AfterRwLeave(s.pcs[t])])
  }

  ghost predicate StepLeavePool(s: State, s': State, t: Tid, ch: Choice) {
    && t in s.pcs && PoolHeld(s.pcs[t])
    && LeaveStep(s.poolRw, s'.poolRw, t, ch.woken)
    && s' == s.(poolRw := s'.poolRw, pcs := s.pcs[t := AfterPoolLeave(s.pcs[t])])
  }

  ghost predicate StepAct(s: State, s': State, t: Tid, ch: Choice) {
    CanAct(s, t) && s' == Act(s, t, ch)
  }

  ghost predicate StepSpurious(s: State, s': State, t: Tid) {
    || (Asleep(s.rw, t) && s' == s.(rw := SpuriousWake(s.rw, t)))
    || (Asleep(s.poolRw, t) && s' == s.(poolRw := SpuriousWake(s.poolRw, t)))
  }

  /** A connection thread receives a packet; connection ids never equal UINT32_MAX. */
  ghost predicate StepStart(s: State, s': State, t: Tid, call: Call) {
    t in s.pcs && s.pcs[t].Idle? && call.c != UINT32_MAX && s' == s.(pcs := s.pcs[t := FirstPc(call)])
  }

  /** A step inside a call that was already started. */
  ghost predicate InnerStep(s: State, s': State, t: Tid, ch: Choice) {
    || StepAcquireRw(s, s', t)
    || StepAcquirePool(s, s', t)
    || StepLeaveRw(s, s', t, ch)
    || StepLeavePool(s, s', t, ch)
    || StepAct(s, s', t, ch)
    || StepSpurious(s, s', t)
  }

  ghost predicate Next(s: State, s': State) {
    || (exists t, ch :: InnerStep(s, s', t, ch))
    || (exists t, call :: StepStart(s, s', t, call))
  }

  /** The `i`-th step of a run. */
  ghost predicate StepAt(r: seq<State>, i: nat)
    requires i + 1 < |r|
  {
    Next(r[i], r[i + 1])
  }

  ghost predicate Run(r: seq<State>) {
    && |r| > 0
    && (exists threads: set<Tid> :: |threads| < 0x1_0000_0000 && r[0] == Initial(threads))
    && forall i: nat :: i + 1 < |r| ==> StepAt(r, i)
  }

  // ---------------------------------------------------------------- invariants

  ghost predicate PosFits(need: Need, held: bool, p: Pos) {
    match need
    case Nothing => p == Out
    case Shared => if held then p == Reading else p in {Out, ReadAsleep, ReadWoken, Reading}
    case Exclusive => if held then p == Writing else p in {Out, WriteAsleep, WriteWoken, Writing}
  }

  /** Each thread stands in the two locks where its program counter says, and the locks are sound. */
  ghost predicate LocksInv(s: State) {
    && RwLocks.Inv(s.rw) && RwLocks.Inv(s.poolRw)
    && s.rw.pos.Keys == s.pcs.Keys && s.poolRw.pos.Keys == s.pcs.Keys
    && (forall t :: t in s.pcs ==> PosFits(RwNeed(s.pcs[t]), RwHeld(s.pcs[t]), s.rw.pos[t]))
    && (forall t :: t in s.pcs ==> PosFits(PoolNeed(s.pcs[t]), PoolHeld(s.pcs[t]), s.poolRw.pos[t]))
  }

  ghost predicate IsLive(s: State, h: Handle, d: Dev) {
    h in s.live && s.live[h] == d
  }

  ghost predicate EntryIs(s: State, d: Dev, e: Option<Handle>) {
    d in s.table && s.table[d] == e
  }

  /** What holds of a device's entry while its mutex owner is at a given point. */
  ghost predicate OwnerView(s: State, pc: Pc) {
    match pc
    case OAddConn(_, d) => d in s.table
    case OPlace(_, d) => d !in s.table
    case OTestNull(_, d) => EntryIs(s, d, None)
    case OCreateUn(_, d) => EntryIs(s, d, None)
    case OCreate(_, d) => EntryIs(s, d, None)
    case OSet(_, d, made) => EntryIs(s, d, None) && (made.Some? ==> IsLive(s, made.value, d))
    case OSetConn(_, d, h) => EntryIs(s, d, Some(h)) && IsLive(s, h, d)
    case OClear(_, d, made) => EntryIs(s, d, made)
    case UFindUn(_, d, _, found) => found
    case CTest(_, d, _) => d in s.table
    case CKillUn(_, d) => d in s.table
    case CKill(_, d) => d in s.table
    case CNull(_, d) => d in s.table && s.table[d].Some? && !IsLive(s, s.table[d].value, d)
    case CDel(_, d) => EntryIs(s, d, None)
    case SIo(_, d, h) => EntryIs(s, d, Some(h)) && IsLive(s, h, d)
    case _ => true
  }

  /** Device mutexes are owned by the threads whose program counters say so, by one thread each. */
  ghost predicate MutexInv(s: State) {
    && (forall d :: d in s.mutexes && s.mutexes[d].Some? ==>
          s.mutexes[d].value in s.pcs && Owns(s.pcs[s.mutexes[d].value]) == Some(d))
    && (forall t :: t in s.pcs && Owns(s.pcs[t]).Some? ==> OwnedBy(s, Owns(s.pcs[t]).value, t))
    && (forall t :: t in s.pcs && HasMutex(s.pcs[t]) ==> s.pcs[t].d in s.mutexes)
  }

  ghost predicate OwnedBy(s: State, d: Dev, t: Tid) {
    d in s.mutexes && s.mutexes[d] == Some(t)
  }

  predicate HasMutex(pc: Pc) {
    pc.MHitUn? || pc.MInsertUn? || pc.MTake?
  }

  /** The owner of the device mutex is between destroying the handle and clearing the entry. */
  ghost predicate Clearing(s: State, d: Dev) {
    && d in s.mutexes && s.mutexes[d].Some? && s.mutexes[d].value in s.pcs
    && s.pcs[s.mutexes[d].value].CNull?
  }

  /** The owner of the device mutex has created handle `h` and not stored it yet. */
  ghost predicate Placing(s: State, h: Handle, d: Dev) {
    && d in s.mutexes && s.mutexes[d].Some? && s.mutexes[d].value in s.pcs
    && s.pcs[s.mutexes[d].value].OSet? && s.pcs[s.mutexes[d].value].made == Some(h)
  }

  /** Table and live handles agree about device `d`, up to what its mutex owner is doing. */
  ghost predicate DeviceInv(s: State, d: Dev) {
    && (d in s.table && s.table[d].Some? ==> IsLive(s, s.table[d].value, d) || Clearing(s, d))
    && (forall h: Handle :: IsLive(s, h, d) ==> EntryIs(s, d, Some(h)) || Placing(s, h, d))
  }

  ghost predicate HandlesInv(s: State) {
    && (forall t :: t in s.pcs ==> OwnerView(s, s.pcs[t]))
    && (forall d :: DeviceInv(s, d))
    && (forall h :: h in s.live ==> h < s.issued)
  }

  ghost predicate Inv(s: State) {
    LocksInv(s) && MutexInv(s) && HandlesInv(s)
  }

  lemma InitialInv(threads: set<Tid>)
    requires |threads| < 0x1_0000_0000
    ensures Inv(Initial(threads))
  {
    NewLockInv(threads);
  }

  // ---------------------------------------------------------------- one operation: locks

  /** A step of thread `t` keeps the locks sound if it leaves `t` where its new counter wants it. */
  lemma LocksKept(s: State, s': State, t: Tid)
    requires LocksInv(s) && t in s.pcs && t in s'.pcs && s'.pcs == s.pcs[t := s'.pcs[t]]
    requires RwLocks.Inv(s'.rw) && RwLocks.Inv(s'.poolRw)
    requires OthersKept(s.rw, s'.rw, t) && OthersKept(s.poolRw, s'.poolRw, t)
    requires PosFits(RwNeed(s'.pcs[t]), RwHeld(s'.pcs[t]), s'.rw.pos[t])
    requires PosFits(PoolNeed(s'.pcs[t]), PoolHeld(s'.pcs[t]), s'.poolRw.pos[t])
    ensures LocksInv(s')
  {
    hide RwLocks.Inv, PosFits, RwNeed, RwHeld, PoolNeed, PoolHeld;
    forall u | u in s'.pcs && u != t
      ensures PosFits(RwNeed(s'.pcs[u]), RwHeld(s'.pcs[u]), s'.rw.pos[u])
      ensures PosFits(PoolNeed(s'.pcs[u]), PoolHeld(s'.pcs[u]), s'.poolRw.pos[u])
    {
      assert s'.pcs[u] == s.pcs[u];
      PosFitsWoken(RwNeed(s.pcs[u]), RwHeld(s.pcs[u]), s.rw.pos[u], s'.rw.pos[u]);
      PosFitsWoken(PoolNeed(s.pcs[u]), PoolHeld(s.pcs[u]), s.poolRw.pos[u], s'.poolRw.pos[u]);
    }
  }

  lemma PosFitsWoken(need: Need, held: bool, p: Pos, p': Pos)
    requires PosFits(need, held, p)
    requires p' == p || (p == ReadAsleep && p' == ReadWoken) || (p == WriteAsleep && p' == WriteWoken)
    ensures PosFits(need, held, p')
  {
  }

  lemma AcquireFits(l: Lock, l': Lock, t: Tid, need: Need)
    requires Acquires(l, l', t, need)
    ensures Step(l, l', t, None) && AcquireStep(l, l', t) && t in l'.pos && PosFits(need, false, l'.pos[t])
  {
  }

  lemma LeaveFits(l: Lock, l': Lock, t: Tid, woken: Option<Tid>)
    requires LeaveStep(l, l', t, woken)
    ensures Step(l, l', t, woken) && t in l'.pos && l'.pos[t] == Out
  {
  }

  lemma SpuriousFits(l: Lock, t: Tid, need: Need, held: bool)
    requires Asleep(l, t) && PosFits(need, held, l.pos[t])
    ensures Step(l, SpuriousWake(l, t), t, None) && PosFits(need, held, SpuriousWake(l, t).pos[t])
  {
  }

  lemma SameLock(l: Lock, t: Tid)
    ensures OthersKept(l, l, t)
  {
  }

  /** Releases leave a thread at a counter that needs no lock of the kind just released, and the
      other lock is not involved. */
  lemma AfterLeaveNeeds(pc: Pc)
    ensures RwLeaves(pc) ==> !RwHeld(AfterRwLeave(pc)) && !PoolHeld(AfterRwLeave(pc)) && PoolNeed(pc) == Nothing
    ensures PoolHeld(pc) ==> !PoolHeld(AfterPoolLeave(pc)) && !RwHeld(AfterPoolLeave(pc)) && RwNeed(pc) == Nothing
  {
  }

  lemma AcquireKeepsLocks(s: State, s': State, t: Tid)
    requires LocksInv(s) && (StepAcquireRw(s, s', t) || StepAcquirePool(s, s', t))
    ensures LocksInv(s')
  {
    assert s'.pcs == s.pcs[t := s.pcs[t]];
    if StepAcquireRw(s, s', t) {
      AcquireFits(s.rw, s'.rw, t, RwNeed(s.pcs[t]));
    } else {
      AcquireFits(s.poolRw, s'.poolRw, t, PoolNeed(s.pcs[t]));
    }
    LockMoved(s, s', t, None);
  }

  lemma LeaveRwKeepsLocks(s: State, s': State, t: Tid, ch: Choice)
    requires LocksInv(s) && StepLeaveRw(s, s', t, ch)
    ensures LocksInv(s')
  {
    LeaveFits(s.rw, s'.rw, t, ch.woken);
    AfterLeaveNeeds(s.pcs[t]);
    LockMoved(s, s', t, ch.woken);
  }

  lemma LeavePoolKeepsLocks(s: State, s': State, t: Tid, ch: Choice)
    requires LocksInv(s) && StepLeavePool(s, s', t, ch)
    ensures LocksInv(s')
  {
    LeaveFits(s.poolRw, s'.poolRw, t, ch.woken);
    AfterLeaveNeeds(s.pcs[t]);
    LockMoved(s, s', t, ch.woken);
  }

  lemma SpuriousKeepsLocks(s: State, s': State, t: Tid)
    requires LocksInv(s) && StepSpurious(s, s', t)
    ensures LocksInv(s')
  {
    assert s'.pcs == s.pcs[t := s.pcs[t]];
    if s'.rw != s.rw {
      SpuriousFits(s.rw, t, RwNeed(s.pcs[t]), RwHeld(s.pcs[t]));
    } else if s'.poolRw != s.poolRw {
      SpuriousFits(s.poolRw, t, PoolNeed(s.pcs[t]), PoolHeld(s.pcs[t]));
    }
    LockMoved(s, s', t, None);
  }

  lemma LockMoved(s: State, s': State, t: Tid, woken: Option<Tid>)
    requires LocksInv(s) && t in s.pcs && t in s'.pcs && s'.pcs == s.pcs[t := s'.pcs[t]]
    requires s'.rw == s.rw || Step(s.rw, s'.rw, t, woken)
    requires s'.poolRw == s.poolRw || Step(s.poolRw, s'.poolRw, t, woken)
    requires t in s'.rw.pos && PosFits(RwNeed(s'.pcs[t]), RwHeld(s'.pcs[t]), s'.rw.pos[t])
    requires t in s'.poolRw.pos && PosFits(PoolNeed(s'.pcs[t]), PoolHeld(s'.pcs[t]), s'.poolRw.pos[t])
    ensures LocksInv(s')
  {
    SameLock(s.rw, t);
    SameLock(s.poolRw, t);
    if s'.rw != s.rw {
      StepKeepsInv(s.rw, s'.rw, t, woken);
      StepKeepsOthers(s.rw, s'.rw, t, woken);
    }
    if s'.poolRw != s.poolRw {
      StepKeepsInv(s.poolRw, s'.poolRw, t, woken);
      StepKeepsOthers(s.poolRw, s'.poolRw, t, woken);
    }
    LocksKept(s, s', t);
  }

  // ---------------------------------------------------------------- one operation: table, list and mutexes

  /** An operation leads to a counter whose locks are those held before it. */
  lemma NextPcNeeds(s: State, pc: Pc, ch: Choice, p: Pos)
    requires !RwLeaves(pc) && !PoolHeld(pc)
    ensures RwNeed(pc) != Nothing ==>
      RwHeld(NextPc(s, pc, ch)) && RwNeed(NextPc(s, pc, ch)) == RwNeed(pc) && PoolNeed(NextPc(s, pc, ch)) == Nothing
    ensures PoolNeed(pc) != Nothing ==>
      PoolHeld(NextPc(s, pc, ch)) && PoolNeed(NextPc(s, pc, ch)) == PoolNeed(pc) && RwNeed(NextPc(s, pc, ch)) == Nothing
    ensures RwNeed(pc) == Nothing && PoolNeed(pc) == Nothing ==>
      !RwHeld(NextPc(s, pc, ch)) && !PoolHeld(NextPc(s, pc, ch))
    ensures RwNeed(pc) == Nothing || PoolNeed(pc) == Nothing
  {
  }

  lemma ActKeepsLocks(s: State, t: Tid, ch: Choice)
    requires LocksInv(s) && CanAct(s, t)
    ensures LocksInv(Act(s, t, ch))
  {
    NextPcNeeds(s, s.pcs[t], ch, s.rw.pos[t]);
    LockMoved(s, Act(s, t, ch), t, None);
  }

  /** Two states agree about device `e`. */
  ghost predicate SameDevice(s: State, s': State, e: Dev) {
    && (e in s'.table <==> e in s.table)
    && (e in s.table ==> s'.table[e] == s.table[e])
    && (forall h: Handle :: IsLive(s', h, e) <==> IsLive(s, h, e))
  }

  /** An operation touches the entry and the handles of no device but the one whose mutex is owned. */
  lemma ActElsewhere(s: State, t: Tid, ch: Choice, e: Dev)
    requires CanAct(s, t) && Owns(s.pcs[t]) != Some(e)
    requires forall h :: h in s.live ==> h < s.issued
    requires s.pcs[t].CKill? ==> DeviceHere(s, s.pcs[t].d, s.pcs[t])
    ensures SameDevice(s, Act(s, t, ch), e)
  {
  }

  lemma NextPcOwns(s: State, pc: Pc, ch: Choice)
    ensures Owns(NextPc(s, pc, ch)) == if pc.MTake? then Some(pc.d) else if pc.URelease? then None else Owns(pc)
    ensures HasMutex(NextPc(s, pc, ch)) && !HasMutex(pc) ==> (pc.MFind? && pc.d in s.mutexes) || pc.MInsert?
    ensures HasMutex(NextPc(s, pc, ch)) ==> !pc.Idle? && NextPc(s, pc, ch).d == pc.d
  {
  }

  lemma ActKeepsMutexes(s: State, t: Tid, ch: Choice)
    requires MutexInv(s) && CanAct(s, t)
    ensures MutexInv(Act(s, t, ch))
  {
    var s', pc := Act(s, t, ch), s.pcs[t];
    NextPcOwns(s, pc, ch);
    assert s'.mutexes == MutexesAfter(s.mutexes, t, pc);
    if pc.URelease? {
      assert OwnedBy(s, pc.d, t);
      MutexesMoved(s, s', t, pc.d);
    } else if pc.MTake? || (pc.MInsert? && pc.d !in s.mutexes) {
      MutexesMoved(s, s', t, pc.d);
    }
  }

  /** Taking, creating or releasing one mutex keeps the ownership relation. */
  lemma MutexesMoved(s: State, s': State, t: Tid, d: Dev)
    requires MutexInv(s) && t in s.pcs && t in s'.pcs && s'.pcs == s.pcs[t := s'.pcs[t]]
    requires d in s'.mutexes && s'.mutexes == s.mutexes[d := s'.mutexes[d]]
    requires Owns(s'.pcs[t]) in {None, Some(d)}
    requires Owns(s.pcs[t]) in {None, Some(d)}
    requires d in s.mutexes ==> s.mutexes[d] in {None, Some(t)}
    requires s'.mutexes[d] == if Owns(s'.pcs[t]) == Some(d) then Some(t) else None
    requires HasMutex(s'.pcs[t]) ==> s'.pcs[t].d in s'.mutexes
    ensures MutexInv(s')
  {
    forall u | u in s'.pcs && Owns(s'.pcs[u]).Some? ensures OwnedBy(s', Owns(s'.pcs[u]).value, u) {
      if u != t {
        assert OwnedBy(s, Owns(s.pcs[u]).value, u);
      }
    }
    forall e | e in s'.mutexes && s'.mutexes[e].Some?
      ensures s'.mutexes[e].value in s'.pcs && Owns(s'.pcs[s'.mutexes[e].value]) == Some(e)
    {
      if e != d {
        assert s.mutexes[e].value in s.pcs;
      }
    }
  }

  /** `DeviceInv` for a device whose mutex owner is known to stand at `pc`. */
  ghost predicate DeviceHere(s: State, d: Dev, pc: Pc) {
    && (d in s.table && s.table[d].Some? ==> IsLive(s, s.table[d].value, d) || pc.CNull?)
    && (forall h: Handle :: IsLive(s, h, d) ==> EntryIs(s, d, Some(h)) || (pc.OSet? && pc.made == Some(h)))
  }

  /** What an operation does to the device it works on. */
  lemma EffectHere(s: State, t: Tid, ch: Choice, d: Dev, pc: Pc, s': State)
    requires CanAct(s, t) && s.pcs[t] == pc && s' == Act(s, t, ch) && Owns(pc) == Some(d)
    requires OwnerView(s, pc) && DeviceHere(s, d, pc)
    requires forall h :: h in s.live ==> h < s.issued
    requires d in s.mutexes
    ensures OwnerView(s', NextPc(s, pc, ch)) && DeviceHere(s', d, NextPc(s, pc, ch))
  {
    match pc
    case OFind(_, _) =>
    case OAddConn(_, _) =>
    case OPlace(_, _) =>
    case OTestNull(_, _) =>
    case OCreate(_, _) =>
    case OSet(_, _, _) =>
    case OSetConn(_, _, _) =>
    case OClear(_, _, _) =>
    case CKill(_, _) =>
    case CNull(_, _) =>
    case CDel(_, _) =>
    case SUse(_, _) =>
    case SIo(_, _, _) =>
    case _ =>
  }

  lemma DeviceHereIs(s: State, d: Dev, t: Tid)
    requires OwnedBy(s, d, t) && t in s.pcs
    ensures DeviceHere(s, d, s.pcs[t]) <==> DeviceInv(s, d)
  {
    assert Clearing(s, d) <==> s.pcs[t].CNull?;
    assert forall h: Handle :: Placing(s, h, d) <==> s.pcs[t].OSet? && s.pcs[t].made == Some(h);
  }

  /** The operation of a mutex owner leaves its device in order. */
  lemma ActHere(s: State, t: Tid, ch: Choice, d: Dev)
    requires Inv(s) && CanAct(s, t) && Owns(s.pcs[t]) == Some(d)
    ensures DeviceInv(Act(s, t, ch), d) && OwnerView(Act(s, t, ch), Act(s, t, ch).pcs[t])
  {
    var pc, s' := s.pcs[t], Act(s, t, ch);
    assert OwnedBy(s, d, t) && OwnerView(s, pc) && DeviceInv(s, d);
    DeviceHereIs(s, d, t);
    EffectHere(s, t, ch, d, pc, s');
    if !pc.URelease? {
      assert s'.mutexes == s.mutexes by { NextPcOwns(s, pc, ch); }
      DeviceHereIs(s', d, t);
    }
  }

  lemma OwnerViewKept(s: State, s': State, pc: Pc)
    requires OwnerView(s, pc) && (Owns(pc).Some? ==> SameDevice(s, s', Owns(pc).value))
    ensures OwnerView(s', pc)
  {
  }

  /** A step of a thread that does not own the mutex of device `d` keeps that device in order. */
  lemma DeviceKept(s: State, s': State, t: Tid, d: Dev)
    requires MutexInv(s) && DeviceInv(s, d) && SameDevice(s, s', d)
    requires t in s.pcs && t in s'.pcs && s'.pcs == s.pcs[t := s'.pcs[t]] && Owns(s.pcs[t]) != Some(d)
    requires forall u :: u != t && OwnedBy(s, d, u) ==> OwnedBy(s', d, u)
    ensures DeviceInv(s', d)
  {
    assert Clearing(s, d) ==> Clearing(s', d);
    forall h: Handle | Placing(s, h, d) ensures Placing(s', h, d) {
    }
  }

  lemma OwnersKept(s: State, t: Tid, ch: Choice, d: Dev)
    requires CanAct(s, t) && Owns(s.pcs[t]) != Some(d)
    ensures forall u :: u != t && OwnedBy(s, d, u) ==> OwnedBy(Act(s, t, ch), d, u)
  {
  }

  lemma ActKeepsDevice(s: State, t: Tid, ch: Choice, e: Dev)
    requires Inv(s) && CanAct(s, t)
    ensures DeviceInv(Act(s, t, ch), e)
    ensures Owns(s.pcs[t]) != Some(e) ==> SameDevice(s, Act(s, t, ch), e)
  {
    var pc := s.pcs[t];
    if Owns(pc).Some? {
      assert OwnedBy(s, Owns(pc).value, t) && DeviceInv(s, Owns(pc).value);
      DeviceHereIs(s, Owns(pc).value, t);
    }
    if Owns(pc) == Some(e) {
      ActHere(s, t, ch, e);
    } else {
      ActElsewhere(s, t, ch, e);
      OwnersKept(s, t, ch, e);
      assert DeviceInv(s, e);
      DeviceKept(s, Act(s, t, ch), t, e);
    }
  }

  lemma ViewOf(s: State, t: Tid)
    requires HandlesInv(s) && t in s.pcs
    ensures OwnerView(s, s.pcs[t])
  {
  }

  lemma ActKeepsOtherView(s: State, t: Tid, ch: Choice, u: Tid)
    requires Inv(s) && CanAct(s, t) && u in s.pcs && u != t
    ensures OwnerView(Act(s, t, ch), s.pcs[u])
  {
    hide LocksInv, Act, DeviceInv, MutexInv, HandlesInv, OwnerView;
    ViewOf(s, u);
    if Owns(s.pcs[u]).Some? {
      OwnersDiffer(s, t, u);
      ActKeepsDevice(s, t, ch, Owns(s.pcs[u]).value);
    }
    OwnerViewKept(s, Act(s, t, ch), s.pcs[u]);
  }

  lemma OwnersDiffer(s: State, t: Tid, u: Tid)
    requires MutexInv(s) && t in s.pcs && u in s.pcs && t != u && Owns(s.pcs[u]).Some?
    ensures Owns(s.pcs[t]) != Owns(s.pcs[u])
  {
    assert OwnedBy(s, Owns(s.pcs[u]).value, u);
    if Owns(s.pcs[t]).Some? {
      assert OwnedBy(s, Owns(s.pcs[t]).value, t);
    }
  }

  lemma ActKeepsOwnView(s: State, t: Tid, ch: Choice)
    requires Inv(s) && CanAct(s, t)
    ensures t in Act(s, t, ch).pcs && OwnerView(Act(s, t, ch), Act(s, t, ch).pcs[t])
  {
    hide LocksInv, MutexInv, HandlesInv, OwnerView, DeviceInv, Owns, NextPc, TableAfter, ConnsAfter,
         MutexesAfter, LiveAfter;
    if Owns(s.pcs[t]).Some? {
      ActHere(s, t, ch, Owns(s.pcs[t]).value);
    } else {
      NoOwnerNoView(s, Act(s, t, ch), s.pcs[t], ch);
    }
  }

  /** Only mutex owners have expectations, and a new owner has none yet. */
  lemma NoOwnerNoView(s: State, s': State, pc: Pc, ch: Choice)
    requires Owns(pc).None?
    ensures OwnerView(s', NextPc(s, pc, ch))
  {
    hide EntryIs, IsLive, Entry, HasConn, HasDevice, DeviceOf;
  }

  lemma ActShape(s: State, t: Tid, ch: Choice)
    requires CanAct(s, t)
    ensures Act(s, t, ch).pcs.Keys == s.pcs.Keys
    ensures forall u :: u in s.pcs && u != t ==> Act(s, t, ch).pcs[u] == s.pcs[u]
    ensures (forall h :: h in s.live ==> h < s.issued) ==>
      forall h :: h in Act(s, t, ch).live ==> h < Act(s, t, ch).issued
  {
  }

  lemma ActKeepsHandles(s: State, t: Tid, ch: Choice)
    requires Inv(s) && CanAct(s, t)
    ensures HandlesInv(Act(s, t, ch))
  {
    hide Act, CanAct, LocksInv, MutexInv, OwnerView, DeviceInv;
    ActShape(s, t, ch);
    forall e ensures DeviceInv(Act(s, t, ch), e) {
      ActKeepsDevice(s, t, ch, e);
    }
    ActKeepsOwnView(s, t, ch);
    forall u | u in s.pcs && u != t ensures OwnerView(Act(s, t, ch), Act(s, t, ch).pcs[u]) {
      ActKeepsOtherView(s, t, ch, u);
    }
  }

  lemma ActKeepsInv(s: State, t: Tid, ch: Choice)
    requires Inv(s) && CanAct(s, t)
    ensures Inv(Act(s, t, ch))
  {
    ActKeepsLocks(s, t, ch);
    ActKeepsMutexes(s, t, ch);
    ActKeepsHandles(s, t, ch);
  }

  // ---------------------------------------------------------------- every step keeps the invariant

  /** A step that only moves a program counter, without taking or giving a mutex. */
  ghost predicate PcStep(s: State, s': State, t: Tid) {
    && s' == s.(rw := s'.rw, poolRw := s'.poolRw, pcs := s'.pcs)
    && t in s.pcs && t in s'.pcs && s'.pcs == s.pcs[t := s'.pcs[t]]
    && Owns(s'.pcs[t]) == Owns(s.pcs[t])
    && (HasMutex(s'.pcs[t]) ==> s'.pcs[t].d in s.mutexes)
    && (s'.pcs[t] == s.pcs[t] || (!s.pcs[t].CNull? && !s.pcs[t].OSet?))
  }

  lemma PcStepKeepsMutexes(s: State, s': State, t: Tid)
    requires MutexInv(s) && PcStep(s, s', t)
    ensures MutexInv(s')
  {
    assert forall u :: u in s'.pcs && Owns(s'.pcs[u]).Some? ==> OwnedBy(s, Owns(s.pcs[u]).value, u);
  }

  lemma PcStepKeepsDevice(s: State, s': State, t: Tid, d: Dev)
    requires DeviceInv(s, d) && PcStep(s, s', t)
    ensures DeviceInv(s', d)
  {
    assert Clearing(s, d) ==> Clearing(s', d);
    assert forall h: Handle :: Placing(s, h, d) ==> Placing(s', h, d);
  }

  lemma PcStepKeepsHandles(s: State, s': State, t: Tid)
    requires HandlesInv(s) && PcStep(s, s', t) && OwnerView(s, s'.pcs[t])
    ensures HandlesInv(s')
  {
    forall d ensures DeviceInv(s', d) {
      PcStepKeepsDevice(s, s', t, d);
    }
    forall u | u in s'.pcs ensures OwnerView(s', s'.pcs[u]) {
      assert OwnerView(s, s'.pcs[u]);
      OwnerViewKept(s, s', s'.pcs[u]);
    }
  }

  lemma PcMoved(s: State, s': State, t: Tid)
    requires MutexInv(s) && HandlesInv(s) && LocksInv(s')
    requires PcStep(s, s', t) && OwnerView(s, s'.pcs[t])
    ensures Inv(s')
  {
    PcStepKeepsMutexes(s, s', t);
    PcStepKeepsHandles(s, s', t);
  }

  lemma AfterLeaveKeepsView(s: State, pc: Pc)
    requires OwnerView(s, pc)
    ensures RwLeaves(pc) ==> Owns(AfterRwLeave(pc)) == Owns(pc) && OwnerView(s, AfterRwLeave(pc)) && !HasMutex(AfterRwLeave(pc))
    ensures PoolHeld(pc) ==> Owns(AfterPoolLeave(pc)) == Owns(pc) && OwnerView(s, AfterPoolLeave(pc))
    ensures PoolHeld(pc) && HasMutex(AfterPoolLeave(pc)) ==> HasMutex(pc) && AfterPoolLeave(pc).d == pc.d
  {
  }

  /** A lock step moves no program counter. */
  lemma LockStepIsPcStep(s: State, s': State, t: Tid)
    requires LocksInv(s) && MutexInv(s)
    requires StepAcquireRw(s, s', t) || StepAcquirePool(s, s', t) || StepSpurious(s, s', t)
    ensures PcStep(s, s', t) && s'.pcs[t] == s.pcs[t]
  {
    hide LocksInv, StepAcquireRw, StepAcquirePool, StepSpurious, Owns, OwnedBy;
    LockStepShape(s, s', t);
    assert s'.pcs == s.pcs[t := s.pcs[t]];
  }

  lemma LockStepShape(s: State, s': State, t: Tid)
    requires LocksInv(s) && (StepAcquireRw(s, s', t) || StepAcquirePool(s, s', t) || StepSpurious(s, s', t))
    ensures t in s.pcs && s' == s.(rw := s'.rw, poolRw := s'.poolRw)
  {
    hide Acquires, SpuriousWake, RwNeed, PoolNeed, RwHeld, PoolHeld, PosFits, RwLocks.Inv;
  }

  lemma LockStepKeepsInv(s: State, s': State, t: Tid)
    requires Inv(s) && (StepAcquireRw(s, s', t) || StepAcquirePool(s, s', t) || StepSpurious(s, s', t))
    ensures Inv(s')
  {
    hide LocksInv, MutexInv, HandlesInv, OwnerView, PcStep, StepAcquireRw, StepAcquirePool, StepSpurious;
    if StepSpurious(s, s', t) {
      SpuriousKeepsLocks(s, s', t);
    } else {
      AcquireKeepsLocks(s, s', t);
    }
    LockStepIsPcStep(s, s', t);
    PcStepKnows(s, s', t);
    ViewOf(s, t);
    PcMoved(s, s', t);
  }

  lemma PcStepKnows(s: State, s': State, t: Tid)
    requires PcStep(s, s', t)
    ensures t in s.pcs && t in s'.pcs
  {
  }

  lemma LeaveKeepsInv(s: State, s': State, t: Tid, ch: Choice)
    requires Inv(s) && (StepLeaveRw(s, s', t, ch) || StepLeavePool(s, s', t, ch))
    ensures Inv(s')
  {
    assert OwnerView(s, s.pcs[t]);
    AfterLeaveKeepsView(s, s.pcs[t]);
    if StepLeaveRw(s, s', t, ch) {
      LeaveRwKeepsLocks(s, s', t, ch);
    } else {
      LeavePoolKeepsLocks(s, s', t, ch);
    }
    PcMoved(s, s', t);
  }

  lemma StartKeepsLocks(s: State, s': State, t: Tid, call: Call)
    requires LocksInv(s) && StepStart(s, s', t, call)
    ensures LocksInv(s')
  {
    assert s.rw.pos[t] == Out && s.poolRw.pos[t] == Out;
    FirstPcFits(call);
    hide RwLocks.Inv, PosFits, RwNeed, RwHeld, PoolNeed, PoolHeld, FirstPc;
    LockMoved(s, s', t, None);
  }

  lemma FirstPcFits(call: Call)
    ensures PosFits(RwNeed(FirstPc(call)), RwHeld(FirstPc(call)), Out)
    ensures PosFits(PoolNeed(FirstPc(call)), PoolHeld(FirstPc(call)), Out)
  {
  }

  lemma StartIsPcStep(s: State, s': State, t: Tid, call: Call)
    requires StepStart(s, s', t, call)
    ensures PcStep(s, s', t) && t in s'.pcs && OwnerView(s, s'.pcs[t])
  {
  }

  lemma StartKeepsInv(s: State, s': State, t: Tid, call: Call)
    requires Inv(s) && StepStart(s, s', t, call)
    ensures Inv(s')
  {
    hide LocksInv, MutexInv, HandlesInv, OwnerView, PcStep;
    StartKeepsLocks(s, s', t, call);
    StartIsPcStep(s, s', t, call);
    PcMoved(s, s', t);
  }

  lemma InnerStepKeepsInv(s: State, s': State, t: Tid, ch: Choice)
    requires Inv(s) && InnerStep(s, s', t, ch)
    ensures Inv(s')
  {
    hide Inv, CanAct, StepLeaveRw, StepLeavePool, StepAcquireRw, StepAcquirePool, StepSpurious;
    if StepAct(s, s', t, ch) {
      ActKeepsInv(s, t, ch);
    } else if StepLeaveRw(s, s', t, ch) || StepLeavePool(s, s', t, ch) {
      LeaveKeepsInv(s, s', t, ch);
    } else {
      LockStepKeepsInv(s, s', t);
    }
  }

  lemma NextKeepsInv(s: State, s': State)
    requires Inv(s) && Next(s, s')
    ensures Inv(s')
  {
    if t, ch :| InnerStep(s, s', t, ch) {
      InnerStepKeepsInv(s, s', t, ch);
    } else {
      var t, call :| StepStart(s, s', t, call);
      StartKeepsInv(s, s', t, call);
    }
  }
}
