/**
 The write-preferring read-write lock, one level below its callers: four `uint32_t` counters,
 the threads asleep on the two condition variables, and the threads that were woken (by a
 notification or spuriously) but have not yet re-checked their condition.

 Every critical section of the source, from taking the internal mutex to releasing it or to
 the atomic release inside `wait`, is one step.
*/
module RwLocks {
  import opened Words

  type Tid = nat

  /** Where a thread stands with respect to one lock. */
  datatype Pos = Out | ReadAsleep | ReadWoken | Reading | WriteAsleep | WriteWoken | Writing

  datatype Lock = Lock(nread: u32, nreadWaiters: u32, nwrite: u32, nwriteWaiters: u32, pos: map<Tid, Pos>) {

    /** The threads standing at one of the positions `q`. */
    function At(q: set<Pos>): set<Tid> {
      Positioned(pos, q)
    }

    /** The guard that keeps a reader out: a writer holds or waits. */
    predicate ReadersBarred() {
      nwrite != 0 || nwriteWaiters != 0
    }

    /** The guard that keeps a writer out. */
    predicate WritersBarred() {
      nread != 0 || nwrite != 0
    }
  }

  function Positioned(pos: map<Tid, Pos>, q: set<Pos>): set<Tid> {
    set t | t in pos && pos[t] in q
  }

  const READ_WAITERS: set<Pos> := {ReadAsleep, ReadWoken}
  const WRITE_WAITERS: set<Pos> := {WriteAsleep, WriteWoken}

  /** A new lock for a fixed population of threads. */
  function NewLock(threads: set<Tid>): Lock {
    Lock(0, 0, 0, 0, map t | t in threads :: Out)
  }

  // ---------------------------------------------------------------- steps

  /** `notify_one` on the writers' condition variable: wakes one sleeper, if there is any. */
  predicate LegalWake(pos: map<Tid, Pos>, woken: Option<Tid>) {
    match woken
    case None => Positioned(pos, {WriteAsleep}) == {}
    case Some(w) => w in pos && pos[w] == WriteAsleep
  }

  function NotifyOneWriter(pos: map<Tid, Pos>, woken: Option<Tid>): map<Tid, Pos>
    requires LegalWake(pos, woken)
  {
    match woken
    case None => pos
    case Some(w) => pos[w := WriteWoken]
  }

  /** `notify_all` on the readers' condition variable. */
  function NotifyAllReaders(pos: map<Tid, Pos>): map<Tid, Pos> {
    map t | t in pos :: if pos[t] == ReadAsleep then ReadWoken else pos[t]
  }

  predicate IsAt(l: Lock, t: Tid, p: Pos) {
    t in l.pos && l.pos[t] == p
  }

  function ReadEnter(l: Lock, t: Tid): Lock
    requires IsAt(l, t, Out)
  {
    if l.ReadersBarred()
    then l.(nreadWaiters := Inc32(l.nreadWaiters), pos := l.pos[t := ReadAsleep])
    else l.(nread := Inc32(l.nread), pos := l.pos[t := Reading])
  }

  function ReadRecheck(l: Lock, t: Tid): Lock
    requires IsAt(l, t, ReadWoken)
  {
    if l.ReadersBarred()
    then l.(pos := l.pos[t := ReadAsleep])
    else l.(nreadWaiters := Dec32(l.nreadWaiters), nread := Inc32(l.nread), pos := l.pos[t := Reading])
  }

  /** `woken` is the sleeper picked by `notify_one`; it matters only if a notification is sent. */
  predicate ReadLeaveOk(l: Lock, t: Tid, woken: Option<Tid>) {
    IsAt(l, t, Reading) && (l.nwriteWaiters != 0 ==> LegalWake(l.pos[t := Out], woken))
  }

  function ReadLeave(l: Lock, t: Tid, woken: Option<Tid>): Lock
    requires ReadLeaveOk(l, t, woken)
  {
    var out := l.pos[t := Out];
    l.(nread := Dec32(l.nread), pos := if l.nwriteWaiters != 0 then NotifyOneWriter(out, woken) else out)
  }

  function WriteEnter(l: Lock, t: Tid): Lock
    requires IsAt(l, t, Out)
  {
    if l.WritersBarred()
    then l.(nwriteWaiters := Inc32(l.nwriteWaiters), pos := l.pos[t := WriteAsleep])
    else l.(nwrite := Inc32(l.nwrite), pos := l.pos[t := Writing])
  }

  function WriteRecheck(l: Lock, t: Tid): Lock
    requires IsAt(l, t, WriteWoken)
  {
    if l.WritersBarred()
    then l.(pos := l.pos[t := WriteAsleep])
    else l.(nwriteWaiters := Dec32(l.nwriteWaiters), nwrite := Inc32(l.nwrite), pos := l.pos[t := Writing])
  }

  predicate WriteLeaveOk(l: Lock, t: Tid, woken: Option<Tid>) {
    IsAt(l, t, Writing) && (l.nwriteWaiters != 0 ==> LegalWake(l.pos[t := Out], woken))
  }

  function WriteLeave(l: Lock, t: Tid, woken: Option<Tid>): Lock
    requires WriteLeaveOk(l, t, woken)
  {
    var out := l.pos[t := Out];
    l.(nwrite := Dec32(l.nwrite),
       pos := if l.nwriteWaiters != 0 then NotifyOneWriter(out, woken)
              else if l.nreadWaiters != 0 then NotifyAllReaders(out)
              else out)
  }

  predicate Asleep(l: Lock, t: Tid) {
    IsAt(l, t, ReadAsleep) || IsAt(l, t, WriteAsleep)
  }

  function SpuriousWake(l: Lock, t: Tid): Lock
    requires Asleep(l, t)
  {
    l.(pos := l.pos[t := if l.pos[t] == ReadAsleep then ReadWoken else WriteWoken])
  }

  // ---------------------------------------------------------------- transition relation

  /** Steps by which thread `t` moves from outside towards holding the lock. */
  ghost predicate AcquireStep(l: Lock, l': Lock, t: Tid) {
    || (IsAt(l, t, Out) && l' == ReadEnter(l, t))
    || (IsAt(l, t, ReadWoken) && l' == ReadRecheck(l, t))
    || (IsAt(l, t, Out) && l' == WriteEnter(l, t))
    || (IsAt(l, t, WriteWoken) && l' == WriteRecheck(l, t))
  }

  ghost predicate LeaveStep(l: Lock, l': Lock, t: Tid, woken: Option<Tid>) {
    || (ReadLeaveOk(l, t, woken) && l' == ReadLeave(l, t, woken))
    || (WriteLeaveOk(l, t, woken) && l' == WriteLeave(l, t, woken))
  }

  ghost predicate Step(l: Lock, l': Lock, t: Tid, woken: Option<Tid>) {
    AcquireStep(l, l', t) || LeaveStep(l, l', t, woken) || (Asleep(l, t) && l' == SpuriousWake(l, t))
  }

  ghost predicate Next(l: Lock, l': Lock) {
    exists t: Tid, woken: Option<Tid> :: Step(l, l', t, woken)
  }

  /** The `i`-th step of a run. */
  ghost predicate StepAt(r: seq<Lock>, i: nat)
    requires i + 1 < |r|
  {
    Next(r[i], r[i + 1])
  }

  ghost predicate Run(r: seq<Lock>) {
    |r| > 0 && forall i: nat :: i + 1 < |r| ==> StepAt(r, i)
  }

  // ---------------------------------------------------------------- invariant

  /** Each counter is the number of threads it stands for. */
  ghost predicate Counted(l: Lock) {
    && l.nread == |l.At({Reading})|
    && l.nreadWaiters == |l.At(READ_WAITERS)|
    && l.nwrite == |l.At({Writing})|
    && l.nwriteWaiters == |l.At(WRITE_WAITERS)|
  }

  ghost predicate Exclusive(l: Lock) {
    && (l.nwrite == 0 || (l.nwrite == 1 && l.nread == 0))
  }

  /** A sleeper never misses the moment at which it could go on. */
  ghost predicate NoLostWakeup(l: Lock) {
    && (l.nread == 0 && l.nwrite == 0 && l.nwriteWaiters != 0 ==> l.At({WriteWoken}) != {})
    && (l.nwrite == 0 && l.nwriteWaiters == 0 ==> l.At({ReadAsleep}) == {})
  }

  /** The source's counters are 32 bits wide, hence the bound on the number of threads. */
  ghost predicate Inv(l: Lock) {
    |l.pos| < 0x1_0000_0000 && Counted(l) && Exclusive(l) && NoLostWakeup(l)
  }

  /** Moving one thread changes a head count by that thread only. */
  lemma CountMoved(pos: map<Tid, Pos>, t: Tid, p: Pos, q: set<Pos>)
    requires t in pos
    ensures |Positioned(pos[t := p], q)|
         == |Positioned(pos, q)| - (if pos[t] in q then 1 else 0) + (if p in q then 1 else 0)
  {
    var before, after := Positioned(pos, q), Positioned(pos[t := p], q);
    assert before - {t} == after - {t};
    assert t in before <==> pos[t] in q;
    assert t in after <==> p in q;
    SizeWithout(before, t);
    SizeWithout(after, t);
  }

  lemma SizeWithout(a: set<Tid>, t: Tid)
    ensures |a - {t}| == |a| - (if t in a then 1 else 0)
  {
    if t !in a {
      assert a - {t} == a;
    }
  }

  lemma CountBound(pos: map<Tid, Pos>, q: set<Pos>)
    ensures |Positioned(pos, q)| <= |pos|
  {
    Subset(Positioned(pos, q), pos.Keys);
  }

  lemma Subset(a: set<Tid>, b: set<Tid>)
    requires a <= b
    ensures |a| <= |b|
  {
    assert b == a + (b - a);
    assert |b| == |a| + |b - a|;
  }

  /** Notifications keep every head count that does not tell a sleeper from a woken thread. */
  lemma CountNotified(pos: map<Tid, Pos>, woken: Option<Tid>, q: set<Pos>)
    requires ReadAsleep in q <==> ReadWoken in q
    requires WriteAsleep in q <==> WriteWoken in q
    ensures Positioned(NotifyAllReaders(pos), q) == Positioned(pos, q)
    ensures LegalWake(pos, woken) ==> Positioned(NotifyOneWriter(pos, woken), q) == Positioned(pos, q)
  {
  }

  /** The four head counts after thread `t` moved to `p`, given that the counters were right before. */
  lemma CountAll(l: Lock, t: Tid, p: Pos, after: map<Tid, Pos>, woken: Option<Tid>)
    requires Inv(l) && t in l.pos
    requires || after == l.pos[t := p]
             || (LegalWake(l.pos[t := p], woken) && after == NotifyOneWriter(l.pos[t := p], woken))
             || after == NotifyAllReaders(l.pos[t := p])
    ensures |after| == |l.pos|
    ensures forall q | q in {{Reading}, READ_WAITERS, {Writing}, WRITE_WAITERS} ::
              && |Positioned(after, q)| == |l.At(q)| - (if l.pos[t] in q then 1 else 0) + (if p in q then 1 else 0)
              && |Positioned(after, q)| < 0x1_0000_0000
  {
    assert after.Keys == l.pos.Keys;
    forall q | q in {{Reading}, READ_WAITERS, {Writing}, WRITE_WAITERS}
      ensures |Positioned(after, q)| == |l.At(q)| - (if l.pos[t] in q then 1 else 0) + (if p in q then 1 else 0)
      ensures |Positioned(after, q)| < 0x1_0000_0000
    {
      CountMoved(l.pos, t, p, q);
      CountNotified(l.pos[t := p], woken, q);
      CountBound(after, q);
    }
  }

  lemma NewLockInv(threads: set<Tid>)
    requires |threads| < 0x1_0000_0000
    ensures Inv(NewLock(threads))
  {
    var l := NewLock(threads);
    assert l.pos.Keys == threads;
    forall q | q in {{Reading}, READ_WAITERS, {Writing}, WRITE_WAITERS, {ReadAsleep}} ensures l.At(q) == {} {
    }
  }

  lemma AcquireKeepsInv(l: Lock, l': Lock, t: Tid)
    requires Inv(l) && AcquireStep(l, l', t)
    ensures Inv(l')
  {
    CountAll(l, t, l'.pos[t], l'.pos, None);
    SomeoneAt(l, t);
    if l'.nread == 0 && l'.nwrite == 0 && l'.nwriteWaiters != 0 {
      var w :| w in l.At({WriteWoken});
      assert w in l'.At({WriteWoken});
    }
    forall u | u in l'.At({ReadAsleep}) ensures l'.nwrite != 0 || l'.nwriteWaiters != 0 {
      assert u == t || u in l.At({ReadAsleep});
    }
  }

  /** A thread at a counted position makes its counter non-zero. */
  lemma SomeoneAt(l: Lock, t: Tid)
    requires Inv(l) && t in l.pos
    ensures l.pos[t] == Reading ==> l.nread > 0
    ensures l.pos[t] == Writing ==> l.nwrite > 0
    ensures l.pos[t] in READ_WAITERS ==> l.nreadWaiters > 0
    ensures l.pos[t] in WRITE_WAITERS ==> l.nwriteWaiters > 0
  {
    forall q | q in {{Reading}, READ_WAITERS, {Writing}, WRITE_WAITERS} && l.pos[t] in q ensures |l.At(q)| > 0 {
      assert t in l.At(q);
    }
  }

  lemma LeaveKeepsInv(l: Lock, l': Lock, t: Tid, woken: Option<Tid>)
    requires Inv(l) && LeaveStep(l, l', t, woken)
    ensures Inv(l')
  {
    CountAll(l, t, Out, l'.pos, woken);
    SomeoneAt(l, t);
    if l'.nwriteWaiters != 0 {
      var waiting := Positioned(l.pos[t := Out], WRITE_WAITERS);
      assert waiting == l.At(WRITE_WAITERS);
      var w :| w in waiting;
      assert woken.None? ==> w in Positioned(l.pos[t := Out], {WriteAsleep}) || l.pos[w] == WriteWoken;
      assert (if woken.Some? then woken.value else w) in l'.At({WriteWoken});
    } else if l'.nwrite == 0 {
      forall u | u in l'.At({ReadAsleep}) ensures false {
        assert u in l.At({ReadAsleep});
        SomeoneAt(l, u);
      }
    }
  }

  lemma SpuriousKeepsInv(l: Lock, t: Tid)
    requires Inv(l) && Asleep(l, t)
    ensures Inv(SpuriousWake(l, t))
  {
    var l' := SpuriousWake(l, t);
    CountAll(l, t, l'.pos[t], l'.pos, None);
    if l'.nread == 0 && l'.nwrite == 0 && l'.nwriteWaiters != 0 {
      var w :| w in l.At({WriteWoken});
      assert w in l'.At({WriteWoken});
    }
    forall u | u in l'.At({ReadAsleep}) ensures u in l.At({ReadAsleep}) {
    }
  }

  lemma StepKeepsInv(l: Lock, l': Lock, t: Tid, woken: Option<Tid>)
    requires Inv(l) && Step(l, l', t, woken)
    ensures Inv(l')
  {
    if AcquireStep(l, l', t) {
      AcquireKeepsInv(l, l', t);
    } else if LeaveStep(l, l', t, woken) {
      LeaveKeepsInv(l, l', t, woken);
    } else {
      SpuriousKeepsInv(l, t);
    }
  }

  /** Another thread is where it was, or was woken. */
  ghost predicate OthersKept(l: Lock, l': Lock, t: Tid) {
    && l'.pos.Keys == l.pos.Keys
    && forall u {:trigger l'.pos[u]} :: u in l.pos && u != t ==>
         || l'.pos[u] == l.pos[u]
         || (l.pos[u] == ReadAsleep && l'.pos[u] == ReadWoken)
         || (l.pos[u] == WriteAsleep && l'.pos[u] == WriteWoken)
  }

  lemma StepKeepsOthers(l: Lock, l': Lock, t: Tid, woken: Option<Tid>)
    requires Step(l, l', t, woken)
    ensures OthersKept(l, l', t)
  {
    if LeaveStep(l, l', t, woken) {
      var out := l.pos[t := Out];
      assert out.Keys == l.pos.Keys;
      assert l'.pos == out || l'.pos == NotifyAllReaders(out)
             || (LegalWake(out, woken) && l'.pos == NotifyOneWriter(out, woken));
    }
  }

  // ---------------------------------------------------------------- the class

  /**
   The lock object. Each method is one critical section; `pos` records who is asleep, woken or
   holding, which the source keeps in its condition variables and in its callers' stacks.
   A method that has to wait ends asleep, and the caller continues with the re-check.
  */
  class ReadWriteLock {
    var nread: u32
    var nreadWaiters: u32
    var nwrite: u32
    var nwriteWaiters: u32
    var pos: map<Tid, Pos>

    function View(): Lock
      reads this
    {
      Lock(nread, nreadWaiters, nwrite, nwriteWaiters, pos)
    }

    constructor (threads: set<Tid>)
      ensures View() == NewLock(threads)
    {
      nread, nreadWaiters, nwrite, nwriteWaiters := 0, 0, 0, 0;
      pos := map t | t in threads :: Out;
    }

    method EnterRead(t: Tid) returns (acquired: bool)
      requires Inv(View()) && IsAt(View(), t, Out)
      modifies this
      ensures View() == ReadEnter(old(View()), t) && Inv(View())
      ensures acquired <==> IsAt(View(), t, Reading)
    {
      ghost var before := View();
      if nwrite != 0 || nwriteWaiters != 0 {
        nreadWaiters := Inc32(nreadWaiters);
        pos := pos[t := ReadAsleep];
        acquired := false;
      } else {
        nread := Inc32(nread);
        pos := pos[t := Reading];
        acquired := true;
      }
      AcquireKeepsInv(before, View(), t);
    }

    method RecheckRead(t: Tid) returns (acquired: bool)
      requires Inv(View()) && IsAt(View(), t, ReadWoken)
      modifies this
      ensures View() == ReadRecheck(old(View()), t) && Inv(View())
      ensures acquired <==> IsAt(View(), t, Reading)
    {
      ghost var before := View();
      if nwrite != 0 || nwriteWaiters != 0 {
        pos := pos[t := ReadAsleep];
        acquired := false;
      } else {
        nreadWaiters := Dec32(nreadWaiters);
        nread := Inc32(nread);
        pos := pos[t := Reading];
        acquired := true;
      }
      AcquireKeepsInv(before, View(), t);
    }

    method LeaveRead(t: Tid) returns (woken: Option<Tid>)
      requires Inv(View()) && IsAt(View(), t, Reading)
      modifies this
      ensures ReadLeaveOk(old(View()), t, woken)
      ensures View() == ReadLeave(old(View()), t, woken) && Inv(View())
    {
      ghost var before := View();
      nread := Dec32(nread);
      pos := pos[t := Out];
      woken := None;
      if nwriteWaiters != 0 {
        woken := NotifyOne();
      }
      LeaveKeepsInv(before, View(), t, woken);
    }

    method EnterWrite(t: Tid) returns (acquired: bool)
      requires Inv(View()) && IsAt(View(), t, Out)
      modifies this
      ensures View() == WriteEnter(old(View()), t) && Inv(View())
      ensures acquired <==> IsAt(View(), t, Writing)
    {
      ghost var before := View();
      if nread != 0 || nwrite != 0 {
        nwriteWaiters := Inc32(nwriteWaiters);
        pos := pos[t := WriteAsleep];
        acquired := false;
      } else {
        nwrite := Inc32(nwrite);
        pos := pos[t := Writing];
        acquired := true;
      }
      AcquireKeepsInv(before, View(), t);
    }

    method RecheckWrite(t: Tid) returns (acquired: bool)
      requires Inv(View()) && IsAt(View(), t, WriteWoken)
      modifies this
      ensures View() == WriteRecheck(old(View()), t) && Inv(View())
      ensures acquired <==> IsAt(View(), t, Writing)
    {
      ghost var before := View();
      if nread != 0 || nwrite != 0 {
        pos := pos[t := WriteAsleep];
        acquired := false;
      } else {
        nwriteWaiters := Dec32(nwriteWaiters);
        nwrite := Inc32(nwrite);
        pos := pos[t := Writing];
        acquired := true;
      }
      AcquireKeepsInv(before, View(), t);
    }

    method LeaveWrite(t: Tid) returns (woken: Option<Tid>)
      requires Inv(View()) && IsAt(View(), t, Writing)
      modifies this
      ensures WriteLeaveOk(old(View()), t, woken)
      ensures View() == WriteLeave(old(View()), t, woken) && Inv(View())
    {
      ghost var before := View();
      nwrite := Dec32(nwrite);
      pos := pos[t := Out];
      woken := None;
      if nwriteWaiters != 0 {
        woken := NotifyOne();
      } else if nreadWaiters != 0 {
        pos := map u | u in pos :: if pos[u] == ReadAsleep then ReadWoken else pos[u];
      }
      LeaveKeepsInv(before, View(), t, woken);
    }

    /** `_wcond.notify_one()`: any one sleeping writer, or nobody if none sleeps. */
    method NotifyOne() returns (woken: Option<Tid>)
      modifies this`pos
      ensures LegalWake(old(pos), woken) && pos == NotifyOneWriter(old(pos), woken)
    {
      var sleepers := set t | t in pos && pos[t] == WriteAsleep;
      assert sleepers == Positioned(pos, {WriteAsleep});
      if sleepers == {} {
        woken := None;
      } else {
        var w :| w in sleepers;
        pos := pos[w := WriteWoken];
        woken := Some(w);
      }
    }

    /** True exactly when some thread writes or waits to write. */
    method IsWriteLockRequested() returns (r: bool)
      requires Inv(View())
      ensures r <==> exists t :: t in pos && pos[t] in {Writing} + WRITE_WAITERS
    {
      r := nwrite != 0 || nwriteWaiters != 0;
      ghost var writers, waiters := View().At({Writing}), View().At(WRITE_WAITERS);
      if r {
        ghost var t :| t in writers + waiters;
      }
      assert forall t | t in pos && pos[t] in {Writing} + WRITE_WAITERS :: t in writers + waiters;
    }
  }
}
