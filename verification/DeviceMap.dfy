/**
 The device table as a class: what one call does while no other call is under way, and that it
 gives back every lock on every path. What interleaved calls do is the subject of module
 DeviceTable.
*/
module DeviceMaps {
  import opened Words
  import opened RwLocks
  import opened DeviceTable

  /** The result of a request to a device. */
  datatype XibResult = XibOk | XibError | XibValueError | XibTimeout | XibNoDevice

  /** The device layer: which handles exist. Destroying or using any other handle is an error. */
  class Usb {
    var live: map<Handle, Dev>
    var issued: nat

    constructor ()
      ensures live == map[] && issued == 0
    {
      live, issued := map[], 0;
    }

    /** Whether the device is present is up to the environment. */
    method Create(d: Dev, present: bool) returns (h: Option<Handle>)
      modifies this
      ensures h == if present then Some(old(issued)) else None
      ensures live == if present then old(live)[old(issued) := d] else old(live)
      ensures issued == old(issued) + (if present then 1 else 0)
    {
      if !present {
        return None;
      }
      h := Some(issued);
      live, issued := live[issued := d], issued + 1;
    }

    /** So is what each of the open devices answers to a request. */
    method Request(h: Handle, answers: Handle -> XibResult) returns (res: XibResult)
      requires h in live
      ensures res == answers(h)
    {
      return answers(h);
    }

    method Destroy(h: Handle)
      requires h in live
      modifies this`live
      ensures live == old(live) - {h}
    {
      live := live - {h};
    }
  }

  // ---------------------------------------------------------------- locks of a lone thread

  predicate OthersOut(l: Lock, t: Tid) {
    forall u :: u in l.pos && u != t ==> l.pos[u] == Out
  }

  /** Nobody holds the lock or waits for it. */
  predicate Unlocked(l: Lock) {
    l.nread == 0 && l.nreadWaiters == 0 && l.nwrite == 0 && l.nwriteWaiters == 0
    && forall t :: t in l.pos ==> l.pos[t] == Out
  }

  predicate ReadBy(l: Lock, t: Tid) {
    l.nread == 1 && l.nreadWaiters == 0 && l.nwrite == 0 && l.nwriteWaiters == 0 && IsAt(l, t, Reading) && OthersOut(l, t)
  }

  predicate WrittenBy(l: Lock, t: Tid) {
    l.nread == 0 && l.nreadWaiters == 0 && l.nwrite == 1 && l.nwriteWaiters == 0 && IsAt(l, t, Writing) && OthersOut(l, t)
  }

  method ReadLock(l: ReadWriteLock, t: Tid)
    requires RwLocks.Inv(l.View()) && Unlocked(l.View()) && t in l.pos
    modifies l
    ensures RwLocks.Inv(l.View()) && ReadBy(l.View(), t) && l.pos.Keys == old(l.pos.Keys)
  {
    hide RwLocks.Inv;
    var acquired := l.EnterRead(t);
  }

  method ReadUnlock(l: ReadWriteLock, t: Tid)
    requires RwLocks.Inv(l.View()) && ReadBy(l.View(), t)
    modifies l
    ensures RwLocks.Inv(l.View()) && Unlocked(l.View()) && l.pos.Keys == old(l.pos.Keys)
  {
    hide RwLocks.Inv;
    var woken := l.LeaveRead(t);
  }

  method WriteLock(l: ReadWriteLock, t: Tid)
    requires RwLocks.Inv(l.View()) && Unlocked(l.View()) && t in l.pos
    modifies l
    ensures RwLocks.Inv(l.View()) && WrittenBy(l.View(), t) && l.pos.Keys == old(l.pos.Keys)
  {
    hide RwLocks.Inv;
    var acquired := l.EnterWrite(t);
  }

  method WriteUnlock(l: ReadWriteLock, t: Tid)
    requires RwLocks.Inv(l.View()) && WrittenBy(l.View(), t)
    modifies l
    ensures RwLocks.Inv(l.View()) && Unlocked(l.View()) && l.pos.Keys == old(l.pos.Keys)
  {
    hide RwLocks.Inv;
    var woken := l.LeaveWrite(t);
  }

  // ---------------------------------------------------------------- what one call does

  datatype Content = Content(table: map<Dev, Option<Handle>>, conns: seq<(ConnId, Dev)>)

  /** Opening: `made` is what device creation gives, if it comes to that. */
  function AfterOpen(s: Content, c: ConnId, d: Dev, made: Option<Handle>): (Content, bool) {
    if HasConn(s.conns, c) then (s, true)
    else if d in s.table then (s.(conns := s.conns + [(c, d)]), true)
    else if made.Some? then (Content(s.table[d := made], s.conns + [(c, d)]), true)
    else (s, false)
  }

  /** The device a removal is about; UINT32_MAX if it is about none. */
  function RemovedDevice(s: Content, c: ConnId, devidKn: Dev): Dev {
    if devidKn == UINT32_MAX then DeviceOf(s.conns, c) else devidKn
  }

  function AfterRemove(s: Content, c: ConnId, devidKn: Dev, force: bool): Content {
    var d := RemovedDevice(s, c, devidKn);
    if d == UINT32_MAX then s
    else
      var conns := EraseFirst(s.conns, c);
      Content(if force || !HasDevice(conns, d) then s.table - {d} else s.table, conns)
  }

  /** A device that is no longer there, or has no handle, is removed by force. */
  function AfterSend(s: Content, d: Dev, present: bool): Content {
    if d in s.table && !(present && s.table[d].Some?) then AfterRemove(s, UINT32_MAX, d, true) else s
  }

  /**
   A forced removal closes the device, but takes back only the first registration of connection `c`:
   no connection is registered for the device afterwards if and only if none was, or that one was
   the only one.
  */
  lemma ForcedRemovalIff(s: Content, c: ConnId, d: Dev)
    requires d != UINT32_MAX
    ensures var s' := AfterRemove(s, c, d, true);
            && d !in s'.table
            && (!HasDevice(s'.conns, d) <==> forall i :: 0 <= i < |s.conns| && s.conns[i].1 == d ==> i == FirstOf(s.conns, c))
  {
    var i0 := FirstOf(s.conns, c);
    var conns := EraseFirst(s.conns, c);
    if i0 < |s.conns| {
      assert forall j :: 0 <= j < |conns| ==> conns[j] == s.conns[if j < i0 then j else j + 1];
      forall i | 0 <= i < |s.conns| && i != i0 ensures s.conns[i] == conns[if i < i0 then i else i - 1] {
      }
    }
  }

  /** Two connections share a device that is no longer there: after the forced removal both are still
      registered for it, though it is closed. */
  lemma ForcedRemovalLeavesConnections()
    ensures var s := Content(map[7 := Some(0)], [(1, 7), (2, 7)]);
            var s' := AfterSend(s, 7, false);
            s'.table == map[] && HasConn(s'.conns, 1) && HasConn(s'.conns, 2)
  {
    var conns: seq<(ConnId, Dev)> := [(1, 7), (2, 7)];
    assert FirstOf(conns[1..], UINT32_MAX) == 1 + FirstOf(conns[2..], UINT32_MAX);
    assert conns[0].0 == 1 && conns[1].0 == 2;
  }

  /** The answer to a request for device `d`: that of the device behind its handle, if there is one. */
  function Answered(table: map<Dev, Option<Handle>>, d: Dev, answers: Handle -> XibResult): XibResult {
    if d in table && table[d].Some? then answers(table[d].value) else XibNoDevice
  }

  predicate HasHandle(s: Content, d: Dev) {
    d in s.table && s.table[d].Some?
  }

  /** Exactly when an opening answers true although its device is not open: its connection is registered
      already, for whatever device, and the device is not open; or the entry is the null placeholder. */
  lemma AnswerWithoutDeviceIff(s: Content, c: ConnId, d: Dev, made: Option<Handle>)
    ensures var (s', ok) := AfterOpen(s, c, d, made);
            ok && !HasHandle(s', d) <==> !HasHandle(s, d) && (HasConn(s.conns, c) || d in s.table)
  {
    hide HasConn;
  }

  /** So, after the forced removal of a shared device, a connection that stayed registered is told that
      its device is open when it opens it again. */
  lemma ReopeningRemovedDevice(made: Option<Handle>)
    ensures var s := AfterSend(Content(map[7 := Some(0)], [(1, 7), (2, 7)]), 7, false);
            AfterOpen(s, 2, 7, made) == (s, true) && !HasHandle(s, 7)
  {
    ForcedRemovalLeavesConnections();
  }

  /** A connection that was opened and is the last one of its device undoes its opening by closing. */
  lemma CloseUndoesOpen(s: Content, c: ConnId, d: Dev, made: Option<Handle>)
    requires !HasConn(s.conns, c) && AfterOpen(s, c, d, made).1 && d != UINT32_MAX
    requires d in s.table <==> HasDevice(s.conns, d)
    ensures AfterRemove(AfterOpen(s, c, d, made).0, c, UINT32_MAX, false) == s
  {
    var conns := s.conns + [(c, d)];
    assert conns[|s.conns|].0 == c;
    assert forall i :: 0 <= i < |s.conns| ==> conns[i].0 != c;
    assert FirstOf(conns, c) == |s.conns|;
    assert EraseFirst(conns, c) == s.conns;
    assert AfterOpen(s, c, d, made).0.table - {d} == s.table - {d};
  }

  // ---------------------------------------------------------------- the table

  /** Every entry is null or holds a live handle of its device, and every live handle is in an entry. */
  ghost predicate Matching(table: map<Dev, Option<Handle>>, live: map<Handle, Dev>, issued: nat) {
    && (forall d: Dev :: d in table && table[d].Some? ==> table[d].value in live && live[table[d].value] == d)
    && (forall h: Handle :: h in live ==> h < issued && live[h] in table && table[live[h]] == Some(h))
  }

  lemma MatchingAdded(table: map<Dev, Option<Handle>>, live: map<Handle, Dev>, issued: nat, d: Dev)
    requires Matching(table, live, issued) && d !in table
    ensures Matching(table[d := Some(issued)], live[issued := d], issued + 1)
    ensures table[d := None] - {d} == table
  {
  }

  lemma MatchingRemoved(table: map<Dev, Option<Handle>>, live: map<Handle, Dev>, issued: nat, d: Dev)
    requires Matching(table, live, issued) && d in table
    ensures table[d].Some? ==> table[d].value in live
    ensures Matching(table - {d}, if table[d].Some? then live - {table[d].value} else live, issued)
    ensures table[d := None] - {d} == table - {d}
  {
  }

  class MapDevIdPHandle {
    var table: map<Dev, Option<Handle>>
    var conns: seq<(ConnId, Dev)>
    var mutexes: map<Dev, Option<Tid>>
    const rw: ReadWriteLock
    const poolRw: ReadWriteLock
    const usb: Usb

    constructor (threads: set<Tid>)
      requires |threads| < 0x1_0000_0000
      ensures View() == Content(map[], []) && fresh(rw) && fresh(poolRw) && fresh(usb)
      ensures forall t :: t in threads ==> Valid(t)
    {
      table, conns, mutexes := map[], [], map[];
      rw := new ReadWriteLock(threads);
      poolRw := new ReadWriteLock(threads);
      usb := new Usb();
      NewLockInv(threads);
    }

    ghost function View(): Content
      reads this
    {
      Content(table, conns)
    }

    ghost predicate PoolFree(t: Tid)
      reads rw, poolRw
    {
      rw != poolRw && t in rw.pos && t in poolRw.pos && RwLocks.Inv(poolRw.View()) && Unlocked(poolRw.View())
    }

    /** Both read-write locks are free. */
    ghost predicate Free(t: Tid)
      reads rw, poolRw
    {
      PoolFree(t) && RwLocks.Inv(rw.View()) && Unlocked(rw.View())
    }

    /** Thread `t` reads the table, or writes it. */
    ghost predicate ReadingTable(t: Tid)
      reads rw, poolRw
    {
      PoolFree(t) && RwLocks.Inv(rw.View()) && ReadBy(rw.View(), t)
    }

    ghost predicate WritingTable(t: Tid)
      reads rw, poolRw
    {
      PoolFree(t) && RwLocks.Inv(rw.View()) && WrittenBy(rw.View(), t)
    }

    /** No device mutex is taken. */
    ghost predicate NoneTaken()
      reads this`mutexes
    {
      forall d: Dev :: d in mutexes ==> mutexes[d] == None
    }

    /** Thread `t` owns the mutex of device `d`, and no other mutex is taken. */
    ghost predicate OnlyTaken(t: Tid, d: Dev)
      reads this`mutexes
    {
      d in mutexes && mutexes[d] == Some(t) && forall e: Dev :: e in mutexes && e != d ==> mutexes[e] == None
    }

    ghost predicate Consistent()
      reads this`table, usb
    {
      Matching(table, usb.live, usb.issued)
    }

    /** Between calls, for a thread that may call. */
    ghost predicate Valid(t: Tid)
      reads this, rw, poolRw, usb
    {
      Free(t) && NoneTaken() && Consistent()
    }

    method BeginRead(t: Tid)
      requires Free(t)
      modifies rw
      ensures ReadingTable(t)
    {
      hide RwLocks.Inv;
      ReadLock(rw, t);
    }

    method EndRead(t: Tid)
      requires ReadingTable(t)
      modifies rw
      ensures Free(t)
    {
      hide RwLocks.Inv;
      ReadUnlock(rw, t);
    }

    method BeginWrite(t: Tid)
      requires Free(t)
      modifies rw
      ensures WritingTable(t)
    {
      hide RwLocks.Inv;
      WriteLock(rw, t);
    }

    method EndWrite(t: Tid)
      requires WritingTable(t)
      modifies rw
      ensures Free(t)
    {
      hide RwLocks.Inv;
      WriteUnlock(rw, t);
    }

    method LockCreateDeviceMutex(t: Tid, d: Dev)
      requires Free(t) && NoneTaken()
      modifies this`mutexes, poolRw
      ensures Free(t) && OnlyTaken(t, d)
    {
      hide RwLocks.Inv;
      ReadLock(poolRw, t);
      if d !in mutexes {
        ReadUnlock(poolRw, t);
        WriteLock(poolRw, t);
        mutexes := mutexes[d := None];
        WriteUnlock(poolRw, t);
      } else {
        ReadUnlock(poolRw, t);
      }
      TakeMutex(t, d);
    }

    /** `std::mutex::lock`: returns only when the mutex was free. */
    method TakeMutex(t: Tid, d: Dev)
      requires d in mutexes && mutexes[d] == None
      modifies this`mutexes
      ensures mutexes == old(mutexes)[d := Some(t)]
    {
      mutexes := mutexes[d := Some(t)];
    }

    method UnlockDeviceMutex(t: Tid, d: Dev)
      requires Free(t) && OnlyTaken(t, d)
      modifies this`mutexes, poolRw
      ensures Free(t) && NoneTaken()
    {
      hide RwLocks.Inv;
      ReadLock(poolRw, t);
      var present := d in mutexes;
      ReadUnlock(poolRw, t);
      if present {
        mutexes := mutexes[d := None];
      }
    }

    method IsActualConnection(t: Tid, c: ConnId) returns (found: bool, d: Dev)
      requires Free(t)
      modifies rw
      ensures Free(t) && found == HasConn(conns, c) && d == DeviceTable.DeviceOf(conns, c)
    {
      hide MapDevIdPHandle.Free, MapDevIdPHandle.ReadingTable;
      BeginRead(t);
      var i := FirstOf(conns, c);
      found := i < |conns|;
      d := if i < |conns| then conns[i].1 else 0;
      EndRead(t);
    }

    /** Opens the device for a connection. A connection that is registered already, for whatever
        device, is answered at once. */
    method OpenIfNot(t: Tid, c: ConnId, d: Dev, present: bool) returns (ok: bool)
      requires Valid(t)
      modifies this, rw, poolRw, usb
      ensures Valid(t)
      ensures (View(), ok) == AfterOpen(old(View()), c, d, if present then Some(old(usb.issued)) else None)
    {
      hide MapDevIdPHandle.Free, MapDevIdPHandle.WritingTable, MapDevIdPHandle.NoneTaken,
           MapDevIdPHandle.OnlyTaken, HasConn, Matching;
      var found, known := IsActualConnection(t, c);
      if found {
        return true;
      }
      LockCreateDeviceMutex(t, d);
      BeginWrite(t);
      if d in table {
        conns := conns + [(c, d)];
        EndWrite(t);
      } else {
        ok := CreateUnlocked(t, c, d, present);
        UnlockDeviceMutex(t, d);
        return;
      }
      UnlockDeviceMutex(t, d);
      return true;
    }

    /** The device is created with the table lock released; a null entry holds its place. */
    method CreateUnlocked(t: Tid, c: ConnId, d: Dev, present: bool) returns (ok: bool)
      requires WritingTable(t) && d !in table && Consistent()
      modifies this`table, this`conns, rw, usb
      ensures Free(t) && Consistent() && ok == present
      ensures conns == if present then old(conns) + [(c, d)] else old(conns)
      ensures table == if present then old(table)[d := Some(old(usb.issued))] else old(table)
    {
      hide MapDevIdPHandle.Free, MapDevIdPHandle.WritingTable, Matching;
      MatchingAdded(table, usb.live, usb.issued, d);
      table := table[d := None];
      EndWrite(t);
      var made := usb.Create(d, present);
      BeginWrite(t);
      if made.Some? && d in table {
        table := table[d := made];
        conns := conns + [(c, d)];
        assert table == old(table)[d := made];
      }
      if table[d].None? {
        table := table - {d};
      }
      EndWrite(t);
      return made.Some?;
    }

    /** Destroys the handle of an entry, if it has one. */
    method DestroyDeviceH(d: Dev)
      requires d in table && (table[d].Some? ==> table[d].value in usb.live)
      modifies this`table, usb`live
      ensures usb.live == if old(table[d]).Some? then old(usb.live) - {old(table[d]).value} else old(usb.live)
      ensures table == old(table)[d := None]
    {
      if table[d].Some? {
        usb.Destroy(table[d].value);
        table := table[d := None];
      }
    }

    /** Takes back the first registration of connection `c`, and closes the device when it was the
        last one for it, or by force. */
    method RemoveConnOrRemoveDevice(t: Tid, c: ConnId, devidKn: Dev, force: bool)
      requires Valid(t)
      modifies this, rw, poolRw, usb
      ensures Valid(t)
      ensures View() == AfterRemove(old(View()), c, devidKn, force)
    {
      hide MapDevIdPHandle.Free, MapDevIdPHandle.WritingTable, MapDevIdPHandle.NoneTaken,
           MapDevIdPHandle.OnlyTaken, HasDevice, HasConn, Matching;
      var found, registered := IsActualConnection(t, c);
      var d := devidKn;
      if d == UINT32_MAX {
        d := registered;
      }
      if d == UINT32_MAX {
        return;
      }
      LockCreateDeviceMutex(t, d);
      BeginWrite(t);
      var i := FirstOf(conns, c);
      if i < |conns| {
        conns := conns[..i] + conns[i + 1..];
      }
      EndWrite(t);
      CloseUnused(t, d, force);
      UnlockDeviceMutex(t, d);
    }

    /** The handle is destroyed with the table lock released; a null entry holds its place. */
    method CloseUnused(t: Tid, d: Dev, force: bool)
      requires Free(t) && Consistent()
      modifies this`table, rw, usb`live
      ensures Free(t) && Consistent()
      ensures table == if force || !HasDevice(conns, d) then old(table) - {d} else old(table)
    {
      hide MapDevIdPHandle.Free, MapDevIdPHandle.WritingTable, MapDevIdPHandle.ReadingTable, HasDevice, Matching;
      BeginRead(t);
      if d !in table {
        EndRead(t);
        assert table - {d} == table;
        return;
      }
      var used := ContainsDevice(d);
      EndRead(t);
      if !force && used {
        return;
      }
      MatchingRemoved(table, usb.live, usb.issued, d);
      DestroyDeviceH(d);
      BeginWrite(t);
      if d in table {
        table := table - {d};
      }
      EndWrite(t);
    }

    /** `find_if` by device. */
    method ContainsDevice(d: Dev) returns (found: bool)
      ensures found == HasDevice(conns, d)
    {
      for i := 0 to |conns|
        invariant forall j :: 0 <= j < i ==> conns[j].1 != d
      {
        if conns[i].1 == d {
          return true;
        }
      }
      return false;
    }

    /** A device that answers "no device" is closed by force; other errors are just returned. */
    method OperationSendRequest(t: Tid, d: Dev, answers: Handle -> XibResult) returns (res: XibResult)
      requires Valid(t)
      modifies this, rw, poolRw, usb
      ensures Valid(t)
      ensures View() == AfterSend(old(View()), d, Answered(old(table), d, answers) != XibNoDevice)
      ensures res == Answered(old(table), d, answers)
    {
      hide MapDevIdPHandle.Free, MapDevIdPHandle.ReadingTable, MapDevIdPHandle.NoneTaken,
           MapDevIdPHandle.OnlyTaken, AfterRemove;
      assert d in table && table[d].Some? ==> table[d].value in usb.live;
      BeginRead(t);
      var found := d in table;
      EndRead(t);
      if !found {
        return XibNoDevice;
      }
      LockCreateDeviceMutex(t, d);
      if table[d].Some? {
        res := usb.Request(table[d].value, answers);
      } else {
        res := XibNoDevice;
      }
      UnlockDeviceMutex(t, d);
      if res == XibNoDevice {
        RemoveConnOrRemoveDevice(t, UINT32_MAX, d, true);
      }
    }
  }
}
