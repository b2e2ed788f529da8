/** What holds of the read-write lock over whole runs: exclusion, preference, progress and refinement. */
module RwLockRuns {
  import opened Words
  import opened RwLocks

  /** Every state of every run of a new lock satisfies the invariant. */
  lemma {:induction false} RunKeepsInv(r: seq<Lock>, i: nat)
    requires Run(r) && Inv(r[0]) && i < |r|
    ensures Inv(r[i])
  {
    if i > 0 {
      RunKeepsInv(r, i - 1);
      assert StepAt(r, i - 1);
      var t, woken :| Step(r[i - 1], r[i], t, woken);
      StepKeepsInv(r[i - 1], r[i], t, woken);
    }
  }

  // ---------------------------------------------------------------- mutual exclusion

  /** In every reachable state: one writer and no reader, or no writer. */
  lemma MutualExclusion(l: Lock, t: Tid, u: Tid)
    requires Inv(l) && t != u && IsAt(l, t, Writing)
    ensures !IsAt(l, u, Writing) && !IsAt(l, u, Reading)
  {
    SomeoneAt(l, t);
    if IsAt(l, u, Reading) {
      SomeoneAt(l, u);
    }
    if IsAt(l, u, Writing) {
      Subset({t, u}, l.At({Writing}));
    }
  }

  // ---------------------------------------------------------------- write preference

  ghost predicate WriterAcquires(l: Lock, l': Lock) {
    !(l'.At({Writing}) <= l.At({Writing}))
  }

  lemma StepPrefersWriters(l: Lock, l': Lock, t: Tid, woken: Option<Tid>)
    requires Inv(l) && Step(l, l', t, woken) && l.nwriteWaiters != 0 && !WriterAcquires(l, l')
    ensures l'.At({Reading}) <= l.At({Reading}) && l'.nwriteWaiters != 0
  {
    StepKeepsInv(l, l', t, woken);
    if IsAt(l', t, Writing) {
      assert t in l'.At({Writing});
    } else if l'.nwriteWaiters != l.nwriteWaiters {
      assert IsAt(l, t, Out) && l' == WriteEnter(l, t);
      SomeoneAt(l', t);
    }
  }

  /**
   While a writer waits, and until a writer acquires, no thread starts reading: the readers are
   always among those that were already there. Holds over runs of any length.
  */
  lemma {:induction false} WritePreference(r: seq<Lock>, i: nat)
    requires Run(r) && Inv(r[0]) && i < |r| && r[0].nwriteWaiters != 0
    requires forall j :: 0 <= j < i ==> !WriterAcquires(r[j], r[j + 1])
    ensures r[i].At({Reading}) <= r[0].At({Reading}) && r[i].nread <= r[0].nread && r[i].nwriteWaiters != 0
  {
    RunKeepsInv(r, i);
    if i > 0 {
      WritePreference(r, i - 1);
      RunKeepsInv(r, i - 1);
      assert StepAt(r, i - 1);
      var t, woken :| Step(r[i - 1], r[i], t, woken);
      StepPrefersWriters(r[i - 1], r[i], t, woken);
    }
    Subset(r[i].At({Reading}), r[0].At({Reading}));
  }

  // ---------------------------------------------------------------- progress

  /**
   No lost wakeup, as progress: if nobody holds the lock and somebody waits for it, a woken
   thread exists whose next re-check acquires the lock.
  */
  lemma SomeWaiterCanAcquire(l: Lock, waiter: Tid) returns (t: Tid)
    requires Inv(l) && l.At({Reading}) == {} && l.At({Writing}) == {}
    requires waiter in l.pos && l.pos[waiter] in READ_WAITERS + WRITE_WAITERS
    ensures || (IsAt(l, t, ReadWoken) && IsAt(ReadRecheck(l, t), t, Reading))
            || (IsAt(l, t, WriteWoken) && IsAt(WriteRecheck(l, t), t, Writing))
  {
    if l.nwriteWaiters != 0 {
      t :| t in l.At({WriteWoken});
    } else {
      SomeoneAt(l, waiter);
      t := waiter;
      assert l.At({ReadAsleep}) == {};
      assert l.pos[waiter] == ReadAsleep <==> waiter in l.At({ReadAsleep});
    }
  }

  // ---------------------------------------------------------------- refinement of the textbook lock

  /** The lock its callers rely on: who reads and who writes, nothing about waiting. */
  datatype AbsLock = AbsLock(readers: set<Tid>, writers: set<Tid>)

  ghost predicate AbsStep(a: AbsLock, a': AbsLock, t: Tid) {
    || a' == a
    || (t !in a.readers && a.writers == {} && a' == a.(readers := a.readers + {t}))
    || (a.readers == {} && a.writers == {} && a' == a.(writers := {t}))
    || (t in a.readers && a' == a.(readers := a.readers - {t}))
    || (a.writers == {t} && a' == a.(writers := {}))
  }

  function Abstraction(l: Lock): AbsLock {
    AbsLock(l.At({Reading}), l.At({Writing}))
  }

  ghost predicate AbsNext(a: AbsLock, a': AbsLock) {
    exists t :: AbsStep(a, a', t)
  }

  /** A step changes who holds the lock by thread `t` at most. */
  lemma HoldersMove(l: Lock, l': Lock, t: Tid, woken: Option<Tid>, p: Pos)
    requires Step(l, l', t, woken) && p in {Reading, Writing}
    ensures t in l.pos && t in l'.pos
    ensures l'.At({p}) == if l'.pos[t] == p then l.At({p}) + {t} else l.At({p}) - {t}
  {
  }

  /** A lock is granted only when its abstract counterpart could grant it. */
  lemma GrantedWhenFree(l: Lock, l': Lock, t: Tid, woken: Option<Tid>)
    requires Step(l, l', t, woken) && !IsAt(l, t, l'.pos[t])
    ensures l'.pos[t] == Reading ==> l.nwrite == 0
    ensures l'.pos[t] == Writing ==> l.nread == 0 && l.nwrite == 0
    ensures IsAt(l, t, Reading) || IsAt(l, t, Writing) ==> l'.pos[t] == Out
  {
  }

  /** The only writer, if there is one. */
  lemma SoleWriter(l: Lock, t: Tid)
    requires Inv(l) && IsAt(l, t, Writing)
    ensures l.At({Writing}) == {t} && l.At({Reading}) == {}
  {
    forall u | u in l.pos && u != t ensures !IsAt(l, u, Writing) && !IsAt(l, u, Reading) {
      MutualExclusion(l, t, u);
    }
  }

  /** A zero counter means that nobody stands at its positions. */
  lemma NobodyAt(l: Lock)
    requires Counted(l)
    ensures l.nread == 0 ==> l.At({Reading}) == {}
    ensures l.nwrite == 0 ==> l.At({Writing}) == {}
  {
  }

  lemma MoveRefines(a: AbsLock, a': AbsLock, t: Tid, p: Pos, p': Pos)
    requires (t in a.readers <==> p == Reading) && (t in a.writers <==> p == Writing)
    requires a'.readers == if p' == Reading then a.readers + {t} else a.readers - {t}
    requires a'.writers == if p' == Writing then a.writers + {t} else a.writers - {t}
    requires p == Writing ==> a.writers == {t}
    requires p != p' && p' == Reading ==> a.writers == {}
    requires p != p' && p' == Writing ==> a.readers == {} && a.writers == {}
    requires p != p' && p in {Reading, Writing} ==> p' == Out
    ensures AbsStep(a, a', t)
  {
  }

  lemma StepRefines(l: Lock, l': Lock, t: Tid, woken: Option<Tid>)
    requires Inv(l) && Step(l, l', t, woken)
    ensures AbsNext(Abstraction(l), Abstraction(l'))
  {
    HoldersMove(l, l', t, woken, Reading);
    HoldersMove(l, l', t, woken, Writing);
    if !IsAt(l, t, l'.pos[t]) {
      GrantedWhenFree(l, l', t, woken);
    }
    if IsAt(l, t, Writing) {
      SoleWriter(l, t);
    }
    NobodyAt(l);
    hide Step, Counted, Exclusive, NoLostWakeup;
    MoveRefines(Abstraction(l), Abstraction(l'), t, l.pos[t], l'.pos[t]);
  }

  /** Every run of the counting lock is, seen through `Abstraction`, a run of the textbook lock. */
  lemma RunRefines(r: seq<Lock>, i: nat)
    requires Run(r) && Inv(r[0]) && i + 1 < |r|
    ensures AbsNext(Abstraction(r[i]), Abstraction(r[i + 1]))
  {
    RunKeepsInv(r, i);
    assert StepAt(r, i);
    var t, woken :| Step(r[i], r[i + 1], t, woken);
    StepRefines(r[i], r[i + 1], t, woken);
  }
}
